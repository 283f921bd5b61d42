/** The run as a whole: the plan the four generators build, the catalog the
    four updates leave, the phases an abort or an exception can cut short,
    and the operation counts behind the progress bar. */
module Pipeline {
  import opened Wrappers
  import opened Paths
  import opened Files
  import opened Cover
  import opened Catalog
  import opened Operations

  /** The operations of one run, as the generation phases leave them. */
  datatype Plan = Plan(
    playlists: seq<PlaylistImageOp>,
    tracklists: seq<PlaylistTracksOp>,
    tracks: seq<TrackNumberOp>,
    albums: seq<PlaylistImageOp>)

  /** The generation phases in the program's order; the album phase reuses
      the playlist operations. */
  function Generate(env: Environment, cfg: Config, table: Table): Result<Plan>
  {
    var playlists :- GeneratePlaylistImages(env, cfg, table);
    GenerateAfterPlaylists(env, cfg, table, playlists)
  }

  function GenerateAfterPlaylists(env: Environment, cfg: Config, table: Table, playlists: seq<PlaylistImageOp>): Result<Plan>
  {
    var tracklists :- GenerateTracklists(env, cfg, table);
    GenerateAfterTracklists(env, cfg, table, playlists, tracklists)
  }

  function GenerateAfterTracklists(env: Environment, cfg: Config, table: Table, playlists: seq<PlaylistImageOp>,
                                   tracklists: seq<PlaylistTracksOp>): Result<Plan>
  {
    var tracks :- GenerateTrackNumbers(env, cfg, table);
    var albums :- GenerateAlbums(env, cfg, playlists, table);
    Ok(Plan(playlists, tracklists, tracks, albums))
  }

  /** The update phases in the program's order, the track lists saved at the
      clock's readings 0, 1, ... */
  function ApplyPlan(env: Environment, cfg: Config, clock: nat -> string, table: Table, plan: Plan): Result<Table>
    requires IdsCover(plan.tracklists)
  {
    ApplyAfterPlaylists(env, cfg, clock, ApplyPlaylistImages(env.fs, cfg, table, plan.playlists), plan)
  }

  /** The updates after the playlist one, over the catalog it left; only
      the album update can throw. */
  function ApplyAfterPlaylists(env: Environment, cfg: Config, clock: nat -> string, t1: Table, plan: Plan): Result<Table>
    requires IdsCover(plan.tracklists)
  {
    var t2 :- if cfg.processAlbums then ApplyAlbums(env.fs, cfg, t1, plan.albums) else Ok(t1);
    Ok(ApplyAfterAlbums(cfg, clock, t2, plan))
  }

  function ApplyAfterAlbums(cfg: Config, clock: nat -> string, t2: Table, plan: Plan): Table
    requires IdsCover(plan.tracklists)
  {
    ApplyAfterTrackNumbers(cfg, clock, if cfg.processTracksNumbers then ApplyTrackNumbers(t2, plan.tracks) else t2, plan)
  }

  function ApplyAfterTrackNumbers(cfg: Config, clock: nat -> string, t3: Table, plan: Plan): Table
    requires IdsCover(plan.tracklists)
  {
    if cfg.processPlaylistTracklist then ApplyTracklists(clock, 0, t3, plan.tracklists) else t3
  }

  /** The updates keep the number of rows and never write a row's id, type,
      path or media type. */
  lemma PlanKeepsIdentity(env: Environment, cfg: Config, clock: nat -> string, table: Table, plan: Plan)
    requires IdsCover(plan.tracklists)
    ensures var r := ApplyPlan(env, cfg, clock, table, plan);
      r.Ok? ==> |r.value| == |table| && forall i :: 0 <= i < |table| ==> SameIdentity(r.value[i], table[i])
  {
    var t1 := ApplyPlaylistImages(env.fs, cfg, table, plan.playlists);
    AlbumsFacts(env.fs, cfg, t1, plan.albums);
    var r2 := if cfg.processAlbums then ApplyAlbums(env.fs, cfg, t1, plan.albums) else Ok(t1);
    if r2.Ok? {
      var t3 := if cfg.processTracksNumbers then ApplyTrackNumbers(r2.value, plan.tracks) else r2.value;
      TracklistsFacts(clock, 0, t3, plan.tracklists);
    }
  }

  datatype Phase =
    | GeneratingPlaylistImages
    | GeneratingTracklists
    | GeneratingTrackNumbers
    | GeneratingAlbums
    | UpdatingPlaylistImages
    | UpdatingAlbums
    | UpdatingTrackNumbers
    | UpdatingTracklists
  {
    predicate Updating()
    {
      UpdatingPlaylistImages? || UpdatingAlbums? || UpdatingTrackNumbers? || UpdatingTracklists?
    }
  }

  function Prefix<T>(s: seq<T>, n: nat): (p: seq<T>)
    ensures |p| <= |s| && p == s[..|p|]
    ensures n <= |s| ==> |p| == n
  {
    if n <= |s| then s[..n] else s
  }

  /** The part of a plan that has reached the catalog when the run stops in
      `phase` after `done` operations of that phase: nothing during the
      generation phases, otherwise the earlier update phases in full. */
  function Truncate(plan: Plan, phase: Phase, done: nat): (p: Plan)
    ensures IdsCover(plan.tracklists) ==> IdsCover(p.tracklists)
  {
    match phase
    case UpdatingPlaylistImages => Plan(Prefix(plan.playlists, done), [], [], [])
    case UpdatingAlbums => Plan(plan.playlists, [], [], Prefix(plan.albums, done))
    case UpdatingTrackNumbers => Plan(plan.playlists, [], Prefix(plan.tracks, done), plan.albums)
    case UpdatingTracklists => Plan(plan.playlists, Prefix(plan.tracklists, done), plan.tracks, plan.albums)
    case _ => Plan([], [], [], [])
  }

  /** How a run ended: with no work counted, with every phase done, at a
      check of the abort flag, or with an exception; `done` is the number of
      operations of `phase` that were applied. */
  datatype Outcome =
    | NothingToDo
    | Completed
    | Aborted(phase: Phase, done: nat)
    | Threw(phase: Phase, done: nat, what: string)

  /** The part of the plan that reached the catalog when a run ended with
      `outcome`. */
  function Reached(plan: Plan, outcome: Outcome): (p: Plan)
    ensures IdsCover(plan.tracklists) ==> IdsCover(p.tracklists)
  {
    match outcome
    case Completed => plan
    case Aborted(phase, done) => Truncate(plan, phase, done)
    case Threw(phase, done, _) => Truncate(plan, phase, done)
    case NothingToDo => Truncate(plan, GeneratingPlaylistImages, 0)
  }

  /** The last update phase run to its end is the whole plan. */
  lemma TruncateWhole(plan: Plan)
    ensures Truncate(plan, UpdatingTracklists, |plan.tracklists|) == plan
  {
  }

  /** Stopping before any update leaves the catalog as it was. */
  lemma TruncateBeforeUpdates(env: Environment, cfg: Config, clock: nat -> string, table: Table, plan: Plan, phase: Phase)
    requires !phase.Updating()
    ensures ApplyPlan(env, cfg, clock, table, Truncate(plan, phase, 0)) == Ok(table)
  {
  }

  /** An update phase stopped after `done` operations: the catalog holds
      the earlier phases in full and this one up to `done`. Each lemma
      starts from the catalog the phase before left. */
  lemma StoppedInPlaylistImages(env: Environment, cfg: Config, clock: nat -> string, table: Table, plan: Plan, done: nat)
    requires done <= |plan.playlists|
    ensures ApplyPlan(env, cfg, clock, table, Truncate(plan, UpdatingPlaylistImages, done))
      == Ok(ApplyPlaylistImages(env.fs, cfg, table, plan.playlists[..done]))
  {
  }

  lemma StoppedInAlbums(env: Environment, cfg: Config, clock: nat -> string, t1: Table, plan: Plan, done: nat, t: Table)
    requires done <= |plan.albums|
    requires cfg.processAlbums ==> ApplyAlbums(env.fs, cfg, t1, plan.albums[..done]) == Ok(t)
    requires !cfg.processAlbums ==> t == t1
    ensures ApplyAfterPlaylists(env, cfg, clock, t1, Truncate(plan, UpdatingAlbums, done)) == Ok(t)
  {
  }

  /** The album update throws: so do the updates from there on. */
  lemma ThrewInAlbums(env: Environment, cfg: Config, clock: nat -> string, t1: Table, plan: Plan, what: string)
    requires IdsCover(plan.tracklists)
    requires cfg.processAlbums && ApplyAlbums(env.fs, cfg, t1, plan.albums) == Exception(what)
    ensures ApplyAfterPlaylists(env, cfg, clock, t1, plan) == Exception(what)
  {
  }

  /** The run reached album `done` with every earlier update applied, and
      that album's folder is gone: the whole plan throws its exception. */
  lemma ThrewAtAlbum(env: Environment, cfg: Config, clock: nat -> string, table: Table, plan: Plan, done: nat, what: string)
    requires IdsCover(plan.tracklists) && cfg.processAlbums && done < |plan.albums|
    requires ApplyPlan(env, cfg, clock, table, Truncate(plan, UpdatingAlbums, done)).Ok?
    requires Canonical(env.fs, plan.albums[done].path) == Exception(what)
    ensures ApplyPlan(env, cfg, clock, table, plan) == Exception(what)
  {
    var t1 := ApplyPlaylistImages(env.fs, cfg, table, plan.playlists);
    AlbumsPrefix(env.fs, cfg, t1, plan.albums, done);
    ApplyAlbumsSticky(env.fs, cfg, t1, plan.albums, done + 1);
    ThrewInAlbums(env, cfg, clock, t1, plan, what);
  }

  lemma StoppedInTrackNumbers(cfg: Config, clock: nat -> string, t2: Table, plan: Plan, done: nat, t: Table)
    requires done <= |plan.tracks|
    requires t == if cfg.processTracksNumbers then ApplyTrackNumbers(t2, plan.tracks[..done]) else t2
    ensures ApplyAfterAlbums(cfg, clock, t2, Truncate(plan, UpdatingTrackNumbers, done)) == t
  {
  }

  lemma StoppedInTracklists(cfg: Config, clock: nat -> string, t3: Table, plan: Plan, done: nat, t: Table)
    requires done <= |plan.tracklists| && IdsCover(plan.tracklists)
    requires IdsCover(plan.tracklists[..done])
    requires t == if cfg.processPlaylistTracklist then ApplyTracklists(clock, 0, t3, plan.tracklists[..done]) else t3
    ensures ApplyAfterTrackNumbers(cfg, clock, t3, Truncate(plan, UpdatingTracklists, done)) == t
  {
  }

  // ---- counting ----

  /** The rows a phase selects when it is switched on; none otherwise. */
  function PlaylistImagesSelected(cfg: Config, table: Table): nat
  {
    if cfg.processPlaylistImages then Count(table, PlaylistsMissingMetadata) else 0
  }

  function TracklistsSelected(cfg: Config, table: Table): nat
  {
    if cfg.processPlaylistTracklist then Count(table, PlaylistsWithEmptyTracklist) else 0
  }

  function TrackNumbersSelected(cfg: Config, table: Table): nat
  {
    if cfg.processTracksNumbers then Count(table, TracksMissingNumber) else 0
  }

  function AlbumsSelected(cfg: Config, table: Table): nat
  {
    if cfg.processAlbums then Count(table, AlbumsMissingMetadata) else 0
  }

  /** countOperations as written: two steps per selected playlist, track
      list and track, one per selected album. */
  function OperationsToCount(cfg: Config, table: Table): nat
  {
    2 * PlaylistImagesSelected(cfg, table) + 2 * TracklistsSelected(cfg, table)
    + 2 * TrackNumbersSelected(cfg, table) + AlbumsSelected(cfg, table)
  }

  /** countOperations as intended: albums are generated and applied too, so
      they count twice like the others. */
  function IntendedOperations(cfg: Config, table: Table): nat
  {
    2 * (PlaylistImagesSelected(cfg, table) + TracklistsSelected(cfg, table)
      + TrackNumbersSelected(cfg, table) + AlbumsSelected(cfg, table))
  }

  /** The steps a run that completes counts: each operation once when it is
      generated and once when it is applied. */
  function Work(plan: Plan): nat
  {
    2 * (|plan.playlists| + |plan.tracklists| + |plan.tracks| + |plan.albums|)
  }

  /** Integer division of naturals, by repeated subtraction. */
  function Quotient(a: nat, d: nat): nat
    requires d > 0
    decreases a
  {
    if a < d then 0 else 1 + Quotient(a - d, d)
  }

  lemma {:induction false} QuotientIsDiv(a: nat, d: nat)
    requires d > 0
    ensures Quotient(a, d) == a / d
    decreases a
  {
    if a >= d {
      QuotientIsDiv(a - d, d);
      DivStep(a, d);
    }
  }

  lemma DivStep(a: nat, d: nat)
    requires 0 < d <= a
    ensures a / d == 1 + (a - d) / d
  {
    var q, r := (a - d) / d, (a - d) % d;
    assert a - d == d * q + r && 0 <= r < d;
    assert d * (q + 1) == d * q + d;
    DivUnique(a, d, q + 1, r);
  }

  /** Division is fixed by the quotient-remainder equation. */
  lemma DivUnique(a: nat, d: nat, q: nat, r: nat)
    requires 0 <= r < d && a == d * q + r
    ensures a / d == q
  {
    var q', r' := a / d, a % d;
    assert a == d * q' + r' && 0 <= r' < d;
    assert d * q' - d * q == d * (q' - q);
    ZeroFactor(d, q' - q);
  }

  lemma ZeroFactor(d: int, k: int)
    requires 0 < d && -d < d * k < d
    ensures k == 0
  {
    if k >= 1 {
      MulMonotone(d, 1, k);
    } else if k <= -1 {
      MulMonotone(d, k, -1);
    }
  }

  lemma MulMonotone(d: int, x: int, y: int)
    requires 0 <= d && x <= y
    ensures d * x <= d * y
  {
    assert d * y == d * x + d * (y - x);
  }

  lemma {:induction false} QuotientMonotone(a: nat, b: nat, d: nat)
    requires d > 0 && a <= b
    ensures Quotient(a, d) <= Quotient(b, d)
    decreases a
  {
    if a >= d {
      QuotientMonotone(a - d, b - d, d);
    }
  }

  /** The progress value checkProgress computes: the integer share of
      `total`, in percent. */
  function Percent(n: nat, total: nat): int
    requires total > 0
  {
    Quotient(n * 100, total)
  }

  lemma PercentIsDiv(n: nat, total: nat)
    requires total > 0
    ensures Percent(n, total) == (n * 100) / total
  {
    QuotientIsDiv(n * 100, total);
  }

  lemma PercentMonotone(a: nat, b: nat, total: nat)
    requires total > 0 && a <= b
    ensures 0 <= Percent(a, total) <= Percent(b, total)
  {
    QuotientMonotone(a * 100, b * 100, total);
  }

  lemma PercentWithinTotal(n: nat, total: nat)
    requires 0 < total && n <= total
    ensures 0 <= Percent(n, total) <= 100 && Percent(total, total) == 100
  {
    PercentMonotone(n, total, total);
    PercentIsDiv(total, total);
    DivUnique(total * 100, total, 100, 0);
  }

  /** A plan holds nothing for an update phase that is switched off. */
  predicate Fits(cfg: Config, plan: Plan)
  {
    (!cfg.processPlaylistTracklist ==> plan.tracklists == [])
    && (!cfg.processTracksNumbers ==> plan.tracks == [])
    && (!cfg.processAlbums ==> plan.albums == [])
  }

  /** A generated plan has one operation at most per selected row, one per
      selected album, nothing for a phase that is switched off, an id for
      every track, and so at most as many steps as the intended count. */
  lemma PlanWithinCount(env: Environment, cfg: Config, table: Table)
    requires Generate(env, cfg, table).Ok?
    ensures var plan := Generate(env, cfg, table).value;
      |plan.playlists| <= PlaylistImagesSelected(cfg, table)
      && |plan.tracklists| <= TracklistsSelected(cfg, table)
      && |plan.tracks| <= TrackNumbersSelected(cfg, table)
      && |plan.albums| == AlbumsSelected(cfg, table)
      && IdsCover(plan.tracklists) && Fits(cfg, plan)
      && Work(plan) <= IntendedOperations(cfg, table)
  {
    var plan := Generate(env, cfg, table).value;
    PlaylistImageOpsFacts(env, cfg, table);
    TracklistOpsFacts(env, cfg, table);
    TrackNumberOpsFacts(env, cfg, table);
    if cfg.processAlbums {
      AlbumOpsReuse(env, cfg, plan.playlists, table);
    }
  }

  /** Each generator makes one operation at most per row it selects, the
      album generator exactly one, and nothing when switched off. */
  lemma PlaylistImagesWithin(env: Environment, cfg: Config, table: Table)
    requires GeneratePlaylistImages(env, cfg, table).Ok?
    ensures |GeneratePlaylistImages(env, cfg, table).value|
      <= PlaylistImagesSelected(cfg, table)
  {
    PlaylistImageOpsFacts(env, cfg, table);
  }

  lemma TracklistsWithin(env: Environment, cfg: Config, table: Table)
    requires GenerateTracklists(env, cfg, table).Ok?
    ensures |GenerateTracklists(env, cfg, table).value|
      <= TracklistsSelected(cfg, table)
  {
    TracklistOpsFacts(env, cfg, table);
  }

  lemma TrackNumbersWithin(env: Environment, cfg: Config, table: Table)
    requires GenerateTrackNumbers(env, cfg, table).Ok?
    ensures |GenerateTrackNumbers(env, cfg, table).value|
      <= TrackNumbersSelected(cfg, table)
  {
    TrackNumberOpsFacts(env, cfg, table);
  }

  lemma AlbumsWithin(env: Environment, cfg: Config, playlistOps: seq<PlaylistImageOp>, table: Table)
    requires GenerateAlbums(env, cfg, playlistOps, table).Ok?
    ensures |GenerateAlbums(env, cfg, playlistOps, table).value|
      == AlbumsSelected(cfg, table)
  {
    if cfg.processAlbums {
      AlbumOpsReuse(env, cfg, playlistOps, table);
    }
  }

  /** The count as written is at most the intended one and at least half
      of it, and equal to it exactly when no album is selected: the share of
      the count the intended operations make is at most 200, and 100
      without albums. */
  lemma CountCeiling(cfg: Config, table: Table)
    requires OperationsToCount(cfg, table) > 0
    ensures OperationsToCount(cfg, table) <= IntendedOperations(cfg, table) <= 2 * OperationsToCount(cfg, table)
    ensures IntendedOperations(cfg, table) == OperationsToCount(cfg, table) <==> AlbumsSelected(cfg, table) == 0
    ensures Percent(IntendedOperations(cfg, table), OperationsToCount(cfg, table)) <= 200
    ensures AlbumsSelected(cfg, table) == 0 ==>
      Percent(IntendedOperations(cfg, table), OperationsToCount(cfg, table)) == 100
  {
    PercentUpToTwice(IntendedOperations(cfg, table), OperationsToCount(cfg, table));
  }

  /** Up to twice the total, the share is at most 200. */
  lemma PercentUpToTwice(n: nat, total: nat)
    requires 0 < total <= n <= 2 * total
    ensures Percent(n, total) <= 200
    ensures n == total ==> Percent(n, total) == 100
  {
    PercentMonotone(n, 2 * total, total);
    PercentIsDiv(2 * total, total);
    assert 2 * total * 100 == total * 200 + 0;
    DivUnique(2 * total * 100, total, 200, 0);
    PercentWithinTotal(total, total);
  }

  /** With images and albums processed, a catalog of one album whose cover
      lookup does not throw selects no playlist, and the metadata clause
      compiles; the album counts once, yet a completed run counts two steps
      for it: the progress computed on the last step is 200. Counted twice,
      it is 100. */
  lemma AlbumCountedOnce(env: Environment, cfg: Config, album: Row)
    requires cfg.processPlaylistImages && !cfg.processPlaylistTracklist && !cfg.processTracksNumbers
    requires cfg.processAlbums && Matches(AlbumsMissingMetadata, album)
    requires CoverDescriptor(env.fs, env.encode, cfg.imageName, album.path).Ok?
    ensures var plan := Generate(env, cfg, [album]);
      plan.Ok? && ClauseCompiles(cfg) && Work(plan.value) == 2 && OperationsToCount(cfg, [album]) == 1
      && Percent(Work(plan.value), OperationsToCount(cfg, [album])) == 200
      && IntendedOperations(cfg, [album]) == 2
      && Percent(Work(plan.value), IntendedOperations(cfg, [album])) == 100
  {
    SingleAlbumPlan(env, cfg, album);
    PercentIsDiv(2, 1);
    PercentIsDiv(2, 2);
    ClauseCompilesAsWritten(cfg);
    SelectSingle(album, PlaylistsMissingMetadata);
    SelectSingle(album, AlbumsMissingMetadata);
  }

  /** The plan for that catalog: no playlist operation and one album
      operation. */
  lemma SingleAlbumPlan(env: Environment, cfg: Config, album: Row)
    requires cfg.processPlaylistImages && !cfg.processPlaylistTracklist && !cfg.processTracksNumbers
    requires cfg.processAlbums && Matches(AlbumsMissingMetadata, album)
    requires CoverDescriptor(env.fs, env.encode, cfg.imageName, album.path).Ok?
    ensures Generate(env, cfg, [album]).Ok? && Work(Generate(env, cfg, [album]).value) == 2
  {
    SelectSingle(album, PlaylistsMissingMetadata);
    assert GeneratePlaylistImages(env, cfg, [album]) == Ok([]);
    SelectSingle(album, AlbumsMissingMetadata);
    var step := AlbumStep(env, cfg, [], album);
    assert [album][..0] == [];
    assert AlbumSteps(env, cfg, [], [album]) == [step];
    GatherOne(step);
    assert GenerateAlbums(env, cfg, [], [album]) == step;
  }

  // ---- running the track number phase twice ----

  lemma {:induction false} NamedTrackIsNumbered(table: Table, ops: seq<TrackNumberOp>, i: nat)
    requires i < |table|
    ensures (exists k :: 0 <= k < |ops| && TrackWhere(ops[k], table[i])) ==>
      ApplyTrackNumbers(table, ops)[i].indexNumber.Some?
    decreases |ops|
  {
    if ops != [] {
      var init := ops[..|ops| - 1];
      NamedTrackIsNumbered(table, init, i);
      var before := ApplyTrackNumbers(table, init);
      assert SameButIndex(before[i], table[i]);
      assert forall k :: 0 <= k < |init| ==> init[k] == ops[k];
    }
  }

  /** A track step makes no operation for a row no planned operation names. */
  lemma UnnamedTrackStep(env: Environment, r: Row, ops: seq<TrackNumberOp>)
    requires r.kind == TRACK_TYPE && TrackNumberStep(env, r).Ok?
    requires forall x :: x in TrackNumberStep(env, r).value ==> x in ops
    requires forall op :: op in ops ==> !TrackWhere(op, r)
    ensures TrackNumberStep(env, r) == Ok([])
  {
    TrackNumberStepFits(env, r);
  }

  /** A track still without a number after the writes is one the first
      pass skipped, so the second pass skips it too. */
  lemma RecheckSkipped(env: Environment, table: Table, ops: seq<TrackNumberOp>, r: Row)
    requires Gather(TrackNumberSteps(env, Select(table, TracksMissingNumber))) == Ok(ops)
    requires r in Select(ApplyTrackNumbers(table, ops), TracksMissingNumber)
    ensures TrackNumberStep(env, r) == Ok([])
  {
    var rows := Select(table, TracksMissingNumber);
    var after := ApplyTrackNumbers(table, ops);
    var i :| 0 <= i < |after| && after[i] == r;
    UnnumberedUntouched(table, ops, i);
    assert r in rows;
    var j0 :| 0 <= j0 < |rows| && rows[j0] == r;
    GatherHas(TrackNumberSteps(env, rows), j0);
    TrackNumberStepsAt(env, rows, j0);
    UnnamedTrackStep(env, r, ops);
  }

  /** A track left without a number was named by no operation, and is as
      it was. */
  lemma UnnumberedUntouched(table: Table, ops: seq<TrackNumberOp>, i: nat)
    requires i < |table| && ApplyTrackNumbers(table, ops)[i].indexNumber.None?
    ensures forall op :: op in ops ==> !TrackWhere(op, table[i])
    ensures ApplyTrackNumbers(table, ops)[i] == table[i]
  {
    NamedTrackIsNumbered(table, ops, i);
    forall op | op in ops
      ensures !TrackWhere(op, table[i])
    {
      var k :| 0 <= k < |ops| && ops[k] == op;
    }
  }


  /** Once its numbers are written, the track phase finds nothing more to
      number: every track still without a number is one it skipped. */
  lemma TrackNumbersIdempotent(env: Environment, cfg: Config, table: Table)
    requires GenerateTrackNumbers(env, cfg, table).Ok?
    ensures var ops := GenerateTrackNumbers(env, cfg, table).value;
      GenerateTrackNumbers(env, cfg, ApplyTrackNumbers(table, ops)) == Ok([])
  {
    if cfg.processTracksNumbers {
      var ops := Gather(TrackNumberSteps(env, Select(table, TracksMissingNumber))).value;
      var rows' := Select(ApplyTrackNumbers(table, ops), TracksMissingNumber);
      var steps' := TrackNumberSteps(env, rows');
      forall j | 0 <= j < |steps'|
        ensures steps'[j] == Ok([])
      {
        assert rows'[j] in rows';
        RecheckSkipped(env, table, ops, rows'[j]);
        TrackNumberStepsAt(env, rows', j);
      }
      GatherNothing(steps');
    }
  }

}
