/** The per-photo synchronisation pipeline of `iCloudLess`, as functions from the state
    before a step to the step's outcome and the state after it. The local filesystem is
    a map from path to size plus a set of directories; the remote library is the set of
    record names it still holds. What the network and the disk answer (a download's
    bytes, whether a copy or a delete went through) is passed in as a parameter. Every
    `exit()` of the source is an `Abort` that ends the run. */
module Pipeline {
  import opened Naming

  datatype Option<T> = None | Some(value: T)

  /** A remote photo: its display name, its record name, the size the library reports,
      and the raw value of its `isFavorite` field. */
  datatype Photo = Photo(filename: string, recordName: string, size: int, isFavorite: int)

  /** Local files with their sizes, local directories, and the remote record names. */
  datatype State = State(files: map<string, nat>, dirs: set<string>, cloud: set<string>)

  /** The settings read at start-up. */
  datatype Config = Config(
    photosPath: string,
    favoritesPath: string,
    deleteDownloadedFiles: bool,
    numFilesToKeep: int)

  /** What downloading and writing a photo did: it wrote `bytes` bytes, or it failed,
      possibly leaving a truncated file of `residue` bytes behind. */
  datatype Download = Fetched(bytes: nat) | FetchFailed(residue: Option<nat>)

  /** What `copyfile` did once it was allowed to start: it copied the whole source file,
      or it failed, possibly leaving a partial target file. */
  datatype CopyResult = Copied | CopyFailed(residue: Option<nat>)

  /** The outside world's answers for one photo. */
  datatype Responses = Responses(download: Download, copy: CopyResult, deleteOk: bool)

  /** The reasons the source logs before it calls `exit()`. */
  datatype Failure =
    | CannotCreateDir(path: string)
    | CannotWrite(path: string)
    | NotCreated(path: string)
    | SizeDiffers(path: string, actual: nat, expected: int)
    | CannotCopy(src: string, dst: string)
    | CannotDelete(recordName: string)

  datatype Outcome = Done | Abort(reason: Failure)

  datatype Step = Step(outcome: Outcome, after: State)

  /** The outcome of a run, how many photos it finished, and the final state. */
  datatype RunResult = RunResult(outcome: Outcome, processed: nat, after: State)

  /** A path is a file or a directory, never both. */
  predicate Valid(st: State) {
    st.files.Keys !! st.dirs
  }

  /** `create_dir` (iCloudLess.py:82-92): an existing directory is reused; otherwise
      `os.mkdir` is attempted, which fails when it is refused or the path is a file. */
  function MakeDir(st: State, path: string, mkdirOk: bool): (r: Step)
    ensures path in st.dirs ==> r == Step(Done, st)
    ensures r.outcome.Done? <==> path in st.dirs || (mkdirOk && path !in st.files)
    ensures r.outcome.Done? ==> r.after.dirs == st.dirs + {path}
    ensures r.outcome.Abort? ==> r.after == st
    ensures r.after.files == st.files && r.after.cloud == st.cloud
    ensures Valid(st) ==> Valid(r.after)
  {
    if path in st.dirs then Step(Done, st)
    else if mkdirOk && path !in st.files then Step(Done, st.(dirs := st.dirs + {path}))
    else Step(Abort(CannotCreateDir(path)), st)
  }

  /** The three `create_dir` calls of `__init__`, stopping at the first failure. */
  function MakeDirs(st: State, paths: seq<string>, oks: seq<bool>): (r: Step)
    requires |oks| == |paths|
    ensures r.outcome.Done? ==> r.after.dirs == st.dirs + Earlier(paths, |paths|)
    // When every directory exists or may be made, all of them are there afterwards.
    ensures (forall i :: 0 <= i < |paths| ==> paths[i] in st.dirs || (oks[i] && paths[i] !in st.files))
              ==> r.outcome.Done?
    ensures r.after.dirs <= st.dirs + Earlier(paths, |paths|)
    ensures r.after.files == st.files && r.after.cloud == st.cloud
    ensures st.dirs <= r.after.dirs
    ensures Valid(st) ==> Valid(r.after)
    decreases |paths|
  {
    if paths == [] then Step(Done, st)
    else
      var n := |paths| - 1;
      var r := MakeDirs(st, paths[..n], oks[..n]);
      if r.outcome.Abort? then r else MakeDir(r.after, paths[n], oks[n])
  }

  /** The exact success condition of the directory creation: each path in turn is a
      directory already (from before, or made by an earlier call), or `mkdir` is allowed
      and no file has that path. */
  lemma {:induction false} MakeDirsSucceeds(st: State, paths: seq<string>, oks: seq<bool>)
    requires |oks| == |paths|
    ensures MakeDirs(st, paths, oks).outcome.Done? <==>
              forall i :: 0 <= i < |paths| ==> Makeable(st, paths, oks, i)
    decreases |paths|
  {
    if paths != [] {
      var n := |paths| - 1;
      var pre := MakeDirs(st, paths[..n], oks[..n]);
      MakeDirsSucceeds(st, paths[..n], oks[..n]);
      forall i | 0 <= i < n
        ensures Makeable(st, paths[..n], oks[..n], i) == Makeable(st, paths, oks, i)
      {
        EarlierPrefix(paths, n, i);
      }
      if pre.outcome.Done? {
        EarlierPrefix(paths, n, n);
        assert pre.after.dirs == st.dirs + Earlier(paths, n) && pre.after.files == st.files;
        assert MakeDirs(st, paths, oks) == MakeDir(pre.after, paths[n], oks[n]);
        assert MakeDir(pre.after, paths[n], oks[n]).outcome.Done? <==> Makeable(st, paths, oks, n);
      }
    }
  }

  /** The path at position `i` is a directory before its `create_dir` call, or may be made. */
  predicate Makeable(st: State, paths: seq<string>, oks: seq<bool>, i: nat)
    requires i < |paths| == |oks|
  {
    paths[i] in st.dirs + Earlier(paths, i) || (oks[i] && paths[i] !in st.files)
  }

  lemma EarlierPrefix(paths: seq<string>, k: nat, i: nat)
    requires i <= k <= |paths|
    ensures Earlier(paths[..k], i) == Earlier(paths, i)
  {
    forall x
      ensures x in Earlier(paths[..k], i) <==> x in Earlier(paths, i)
    {
      if x in Earlier(paths, i) {
        var j :| 0 <= j < i && paths[j] == x;
        assert paths[..k][j] == x;
      }
    }
  }

  /** The paths before position `i`. */
  function Earlier(paths: seq<string>, i: nat): set<string>
    requires i <= |paths|
  {
    set j | 0 <= j < i :: paths[j]
  }

  /** `exit()` is avoided only when the file at `path` exists with the expected size. */
  function Check(files: map<string, nat>, path: string, expected: int): (r: Outcome)
    ensures r.Done? <==> path in files && files[path] == expected
  {
    if path !in files then Abort(NotCreated(path))
    else if files[path] != expected then Abort(SizeDiffers(path, files[path], expected))
    else Done
  }

  /** The file a partial write leaves at `path`, if any. */
  function Leave(files: map<string, nat>, path: string, residue: Option<nat>): map<string, nat> {
    if residue.Some? then files[path := residue.value] else files
  }

  /** Downloading a photo and writing it to `path` (`open(path, 'wb')`), which cannot
      open a directory. Only `path` may change. */
  function Write(st: State, path: string, download: Download): (r: Step)
    ensures r.outcome.Done? <==> path !in st.dirs && download.Fetched?
    ensures r.outcome.Done? ==> r.after.files == st.files[path := download.bytes]
    ensures r.after.files - {path} == st.files - {path}
    ensures r.after.dirs == st.dirs && r.after.cloud == st.cloud
    ensures Valid(st) ==> Valid(r.after)
  {
    if path in st.dirs then Step(Abort(CannotWrite(path)), st)
    else match download
      case FetchFailed(residue) =>
        Step(Abort(CannotWrite(path)), st.(files := Leave(st.files, path, residue)))
      case Fetched(n) =>
        Step(Done, st.(files := st.files[path := n]))
  }

  /** Whether the canonical path `photos_path + name` already holds a file of another
      size than the photo's. */
  predicate Collides(st: State, cfg: Config, p: Photo, name: string) {
    var canon := cfg.photosPath + name;
    canon in st.files && st.files[canon] != p.size
  }

  /** The path `save_file_from_icloud_to_local_file_system` ends up checking: the
      canonical path, or its `duplicate-` path on a collision. */
  function SavedPath(st: State, cfg: Config, p: Photo, name: string): (r: string)
    requires name != []
    ensures r == cfg.photosPath + name <==> !Collides(st, cfg, p, name)
  {
    if Collides(st, cfg, p, name) then DuplicatePath(cfg.photosPath, name)
    else cfg.photosPath + name
  }

  /** `save_file_from_icloud_to_local_file_system` (iCloudLess.py:168-221) for a photo
      whose unique name is `name`: download to the canonical path `photos_path + name`
      when nothing is there, skip when a file of the photo's size is there, download to
      the `duplicate-` path otherwise; then check the file that path holds. */
  function Save(st: State, cfg: Config, p: Photo, name: string, download: Download): (r: Step)
    requires name != []
    // Only the saved path can change, and nothing but the files.
    ensures r.after.files - {SavedPath(st, cfg, p, name)} == st.files - {SavedPath(st, cfg, p, name)}
    ensures r.after.dirs == st.dirs && r.after.cloud == st.cloud
    ensures Valid(st) ==> Valid(r.after)
    // A file already at the canonical path is never overwritten.
    ensures var canon := cfg.photosPath + name;
            canon in st.files ==> canon in r.after.files && r.after.files[canon] == st.files[canon]
    // A file of the photo's size at the canonical path: no download, nothing changes.
    ensures var canon := cfg.photosPath + name;
            canon in st.files && st.files[canon] == p.size ==> r == Step(Done, st)
    // Success means the saved file is there with the photo's size.
    ensures r.outcome.Done? ==>
              && SavedPath(st, cfg, p, name) in r.after.files
              && r.after.files[SavedPath(st, cfg, p, name)] == p.size
    // Exactly when the step succeeds.
    ensures r.outcome.Done? <==>
              || (cfg.photosPath + name in st.files && !Collides(st, cfg, p, name))
              || (&& SavedPath(st, cfg, p, name) !in st.dirs
                  && download.Fetched? && download.bytes == p.size)
  {
    var canon := cfg.photosPath + name;
    var path := SavedPath(st, cfg, p, name);
    assert Collides(st, cfg, p, name) ==> path != canon;
    var w := if canon in st.files && st.files[canon] == p.size then Step(Done, st)
             else Write(st, path, download);
    if w.outcome.Abort? then w
    else Step(Check(w.after.files, path, p.size), w.after)
  }

  /** `file_is_favorite` (iCloudLess.py:224-225). */
  predicate IsFavorite(p: Photo) {
    p.isFavorite == 1
  }

  /** `copyfile(src, dst)`: it refuses a missing source, a directory as target and a
      target that is the source itself; otherwise the target gets the source's size. */
  function CopyFile(st: State, src: string, dst: string, result: CopyResult): (r: Step)
    ensures r.outcome.Done? <==> src in st.files && src != dst && dst !in st.dirs && result.Copied?
    ensures r.outcome.Done? ==> r.after.files == st.files[dst := st.files[src]]
    ensures r.after.files - {dst} == st.files - {dst}
    ensures r.after.dirs == st.dirs && r.after.cloud == st.cloud
    ensures Valid(st) ==> Valid(r.after)
  {
    if src !in st.files || src == dst || dst in st.dirs then Step(Abort(CannotCopy(src, dst)), st)
    else match result
      case CopyFailed(residue) =>
        Step(Abort(CannotCopy(src, dst)), st.(files := Leave(st.files, dst, residue)))
      case Copied =>
        Step(Done, st.(files := st.files[dst := st.files[src]]))
  }

  /** `copy_file_to_favorites` (iCloudLess.py:228-257): copy from the CANONICAL path
      `photos_path + name` to `favorites_path + name`, then check the copy. */
  function Favorite(st: State, cfg: Config, p: Photo, name: string, result: CopyResult): (r: Step)
    ensures var fav := cfg.favoritesPath + name;
            r.after.files - {fav} == st.files - {fav}
    ensures r.after.dirs == st.dirs && r.after.cloud == st.cloud
    ensures Valid(st) ==> Valid(r.after)
    // Success needs the canonical file to have the photo's size, whatever was downloaded.
    ensures var canon, fav := cfg.photosPath + name, cfg.favoritesPath + name;
            r.outcome.Done? <==>
              && canon in st.files && st.files[canon] == p.size
              && canon != fav && fav !in st.dirs && result.Copied?
    ensures var fav := cfg.favoritesPath + name;
            r.outcome.Done? ==> fav in r.after.files && r.after.files[fav] == p.size
  {
    var src := cfg.photosPath + name;
    var dst := cfg.favoritesPath + name;
    var w := CopyFile(st, src, dst, result);
    if w.outcome.Abort? then w
    else Step(Check(w.after.files, dst, p.size), w.after)
  }

  /** `delete_file_in_cloud` (iCloudLess.py:260-267): a failed delete aborts and leaves
      the library as it was. */
  function Delete(st: State, p: Photo, deleteOk: bool): (r: Step)
    ensures r.outcome.Done? <==> deleteOk
    ensures r.after.cloud == if deleteOk then st.cloud - {p.recordName} else st.cloud
    ensures r.after.files == st.files && r.after.dirs == st.dirs
  {
    if deleteOk then Step(Done, st.(cloud := st.cloud - {p.recordName}))
    else Step(Abort(CannotDelete(p.recordName)), st)
  }

  /** The body of the loop in `run` (iCloudLess.py:141-154) for a photo whose unique
      name is `name`: save, copy a favorite, then delete from the library when so
      configured; each step runs only if the one before it did not abort. */
  function ProcessPhoto(st: State, cfg: Config, p: Photo, name: string, resp: Responses): (r: Step)
    requires name != []
    ensures r.after.dirs == st.dirs
    ensures Valid(st) ==> Valid(r.after)
    // The library loses at most this photo's record, and only on success.
    ensures r.after.cloud == st.cloud || r.after.cloud == st.cloud - {p.recordName}
    ensures r.outcome.Abort? ==> r.after.cloud == st.cloud
    ensures !cfg.deleteDownloadedFiles ==> r.after.cloud == st.cloud
    ensures cfg.deleteDownloadedFiles && r.outcome.Done? ==> p.recordName !in r.after.cloud
  {
    var saved := Save(st, cfg, p, name, resp.download);
    if saved.outcome.Abort? then saved
    else
      var fav := if IsFavorite(p) then Favorite(saved.after, cfg, p, name, resp.copy)
                 else Step(Done, saved.after);
      if fav.outcome.Abort? then fav
      else if cfg.deleteDownloadedFiles then Delete(fav.after, p, resp.deleteOk)
      else fav
  }

  /** The library is asked to delete a photo only when deleting is configured and the
      photo's saved file (and, for a favorite, its copy) exists with the photo's size. */
  lemma DeleteOnlyAfterVerification(st: State, cfg: Config, p: Photo, name: string, resp: Responses)
    requires name != []
    ensures var r := ProcessPhoto(st, cfg, p, name, resp);
            var saved, fav := SavedPath(st, cfg, p, name), cfg.favoritesPath + name;
            (r.after.cloud != st.cloud || r.outcome == Abort(CannotDelete(p.recordName))) ==>
              && cfg.deleteDownloadedFiles
              && Save(st, cfg, p, name, resp.download).outcome.Done?
              && saved in r.after.files && r.after.files[saved] == p.size
              && (IsFavorite(p) ==> fav in r.after.files && r.after.files[fav] == p.size)
  {
    var saved := Save(st, cfg, p, name, resp.download);
    var path := SavedPath(st, cfg, p, name);
    if saved.outcome.Done? && IsFavorite(p) {
      var fav := Favorite(saved.after, cfg, p, name, resp.copy);
      if fav.outcome.Done? {
        // The copy succeeded, so the canonical file has the photo's size: no collision,
        // and the copy went to another path than the saved one.
        assert path == cfg.photosPath + name;
        assert path != cfg.favoritesPath + name;
      }
    }
  }

  /** The canonical file is never overwritten, and only the saved path (and, for a
      favorite, its favorites path) can change. */
  lemma ProcessPhotoFrame(st: State, cfg: Config, p: Photo, name: string, resp: Responses)
    requires name != []
    ensures var r := ProcessPhoto(st, cfg, p, name, resp);
            var canon := cfg.photosPath + name;
            canon in st.files ==> canon in r.after.files && r.after.files[canon] == st.files[canon]
    ensures var r := ProcessPhoto(st, cfg, p, name, resp);
            var touched := if IsFavorite(p) then {SavedPath(st, cfg, p, name), cfg.favoritesPath + name}
                           else {SavedPath(st, cfg, p, name)};
            r.after.files - touched == st.files - touched
  {
    var saved := Save(st, cfg, p, name, resp.download);
    var canon := cfg.photosPath + name;
    if saved.outcome.Done? && IsFavorite(p) {
      var fav := Favorite(saved.after, cfg, p, name, resp.copy);
      assert canon != cfg.favoritesPath + name ==> fav.after.files[canon] == saved.after.files[canon];
    }
  }

  /** The favorite copy reads the canonical file, not the `duplicate-` one, so a
      favorite whose name collides with a file of another size always ends the run. */
  lemma FavoriteCollisionAborts(st: State, cfg: Config, p: Photo, name: string, resp: Responses)
    requires name != []
    requires IsFavorite(p) && Collides(st, cfg, p, name)
    ensures ProcessPhoto(st, cfg, p, name, resp).outcome.Abort?
  {
    var saved := Save(st, cfg, p, name, resp.download);
    var canon := cfg.photosPath + name;
    assert canon in saved.after.files && saved.after.files[canon] != p.size;
  }

  /** Where the loop of `run` stops (iCloudLess.py:137-139): at the first `index` equal
      to `total_photos - num`, or at the end of the photos when no index is. */
  function StopIndex(total: nat, num: int, index: nat): (k: nat)
    requires index <= total
    ensures index <= k <= total
    // Keeping between 0 and all photos: the oldest `total - num` are processed.
    ensures index <= total - num <= total ==> k == total - num
    // Keeping more than there are (or a negative count): the break never fires.
    ensures !(index <= total - num <= total) ==> k == total
    decreases total - index
  {
    if index == total then total
    else if index == total - num then index
    else StopIndex(total, num, index + 1)
  }

  /** The loop of `run` over `photos`, one photo after the other; `responses[i]` are
      the outside world's answers for `photos[i]`. The first abort ends the run. */
  function RunPhotos(st: State, cfg: Config, photos: seq<Photo>, responses: seq<Responses>): (r: RunResult)
    requires |responses| == |photos|
    ensures r.processed <= |photos|
    ensures r.outcome.Done? <==> r.processed == |photos|
    ensures Valid(st) ==> Valid(r.after)
    ensures r.after.dirs == st.dirs
    ensures r.after.cloud <= st.cloud
    ensures !cfg.deleteDownloadedFiles ==> r.after.cloud == st.cloud
    // A record stays in the library unless it belongs to a photo the run finished.
    ensures forall rn :: rn in st.cloud && (forall i :: 0 <= i < r.processed ==> photos[i].recordName != rn)
              ==> rn in r.after.cloud
    decreases |photos|
  {
    if photos == [] then RunResult(Done, 0, st)
    else
      var n := |photos| - 1;
      RunStep(RunPhotos(st, cfg, photos[..n], responses[..n]), cfg, photos[n], responses[n])
  }

  /** One more photo after a run so far: nothing once it aborted, otherwise the photo
      is processed under its unique name and counted when it finishes. */
  function RunStep(r: RunResult, cfg: Config, p: Photo, resp: Responses): (t: RunResult)
    ensures r.outcome.Abort? ==> t == r
    ensures r.outcome.Done? ==>
              && t.processed == (if t.outcome.Done? then r.processed + 1 else r.processed)
              && (t.after.cloud == r.after.cloud
                  || (t.outcome.Done? && t.after.cloud == r.after.cloud - {p.recordName}))
    ensures t.after.dirs == r.after.dirs
    ensures Valid(r.after) ==> Valid(t.after)
    ensures !cfg.deleteDownloadedFiles ==> t.after.cloud == r.after.cloud
  {
    if r.outcome.Abort? then r
    else
      var s := ProcessPhoto(r.after, cfg, p, UniqueName(p.filename, p.recordName), resp);
      RunResult(s.outcome, if s.outcome.Done? then r.processed + 1 else r.processed, s.after)
  }

  /** `run` (iCloudLess.py:124-158): the photos before the break index, in order. */
  function RunAll(st: State, cfg: Config, photos: seq<Photo>, responses: seq<Responses>): (r: RunResult)
    requires |responses| == |photos|
    ensures var stop := StopIndex(|photos|, cfg.numFilesToKeep, 0);
            && r.processed <= stop
            && (r.outcome.Done? <==> r.processed == stop)
    ensures Valid(st) ==> Valid(r.after)
    ensures r.after.dirs == st.dirs
    ensures r.after.cloud <= st.cloud
    ensures forall rn :: rn in st.cloud && (forall i :: 0 <= i < r.processed ==> photos[i].recordName != rn)
              ==> rn in r.after.cloud
  {
    var stop := StopIndex(|photos|, cfg.numFilesToKeep, 0);
    var r := RunPhotos(st, cfg, photos[..stop], responses[..stop]);
    assert forall i :: 0 <= i < r.processed ==> photos[..stop][i] == photos[i];
    r
  }

  /** `main` (iCloudLess.py:270-273): `__init__` creates the run, photos and favorites
      directories, and `run` starts only when none of those calls ended the program.
      `oks` says whether `mkdir` is allowed for each of the three. */
  function Session(st: State, cfg: Config, targetDir: string, oks: seq<bool>,
                   photos: seq<Photo>, responses: seq<Responses>): (r: RunResult)
    requires |oks| == 3 && |responses| == |photos|
    // A failed directory creation ends the program before any photo is touched.
    ensures var made := MakeDirs(st, [targetDir, cfg.photosPath, cfg.favoritesPath], oks);
            made.outcome.Abort? ==> r.processed == 0 && r.after.files == st.files && r.after.cloud == st.cloud
    // Photos are only processed, and a run only succeeds, once both directories exist.
    ensures r.processed > 0 || r.outcome.Done? ==>
              cfg.photosPath in r.after.dirs && cfg.favoritesPath in r.after.dirs
    ensures Valid(st) ==> Valid(r.after)
    ensures r.after.cloud <= st.cloud
  {
    var paths := [targetDir, cfg.photosPath, cfg.favoritesPath];
    var made := MakeDirs(st, paths, oks);
    if made.outcome.Abort? then RunResult(made.outcome, 0, made.after)
    else
      assert paths[1] in Earlier(paths, |paths|) && paths[2] in Earlier(paths, |paths|);
      RunAll(made.after, cfg, photos, responses)
  }

  /** What is left to do after a prefix: nothing once it aborted, otherwise the rest of
      the photos from the prefix's final state. */
  function Continue(r: RunResult, cfg: Config, photos: seq<Photo>, responses: seq<Responses>): RunResult
    requires |responses| == |photos|
  {
    if r.outcome.Abort? then r else Shift(RunPhotos(r.after, cfg, photos, responses), r.processed)
  }

  function Shift(r: RunResult, k: nat): RunResult {
    r.(processed := r.processed + k)
  }

  lemma RunStepShift(r: RunResult, k: nat, cfg: Config, p: Photo, resp: Responses)
    ensures RunStep(Shift(r, k), cfg, p, resp) == Shift(RunStep(r, cfg, p, resp), k)
  {
  }

  /** Photos are processed strictly in order, and an abort stops every later photo. */
  lemma {:induction false} RunAppend(st: State, cfg: Config, ps: seq<Photo>, qs: seq<Photo>,
                                     rs: seq<Responses>, ts: seq<Responses>)
    requires |rs| == |ps| && |ts| == |qs|
    ensures RunPhotos(st, cfg, ps + qs, rs + ts) == Continue(RunPhotos(st, cfg, ps, rs), cfg, qs, ts)
    decreases |qs|
  {
    if qs == [] {
      assert ps + qs == ps && rs + ts == rs;
    } else {
      var n := |qs| - 1;
      var all, answers := ps + qs, rs + ts;
      assert all[..|all| - 1] == ps + qs[..n] && all[|all| - 1] == qs[n];
      assert answers[..|answers| - 1] == rs + ts[..n] && answers[|answers| - 1] == ts[n];
      var prefix := RunPhotos(st, cfg, ps + qs[..n], rs + ts[..n]);
      assert RunPhotos(st, cfg, all, answers) == RunStep(prefix, cfg, qs[n], ts[n]);
      RunAppend(st, cfg, ps, qs[..n], rs, ts[..n]);
      var head := RunPhotos(st, cfg, ps, rs);
      if head.outcome.Done? {
        var init := RunPhotos(head.after, cfg, qs[..n], ts[..n]);
        assert prefix == Shift(init, head.processed);
        RunStepShift(init, head.processed, cfg, qs[n], ts[n]);
        assert RunPhotos(head.after, cfg, qs, ts) == RunStep(init, cfg, qs[n], ts[n]);
      }
    }
  }

  /** The run over the first `k + 1` photos is the run over the first `k` followed by
      photo `k`. */
  lemma RunPhotosExtend(st: State, cfg: Config, photos: seq<Photo>, responses: seq<Responses>, k: nat)
    requires |responses| == |photos| && k < |photos|
    ensures RunPhotos(st, cfg, photos[..k + 1], responses[..k + 1])
            == RunStep(RunPhotos(st, cfg, photos[..k], responses[..k]), cfg, photos[k], responses[k])
  {
    assert photos[..k + 1][..k] == photos[..k] && photos[..k + 1][k] == photos[k];
    assert responses[..k + 1][..k] == responses[..k] && responses[..k + 1][k] == responses[k];
  }

  /** Once the photo at position `k` aborted, the run ends there: the photos after it,
      up to the break index, change nothing. */
  lemma AbortEndsRun(st: State, cfg: Config, photos: seq<Photo>, responses: seq<Responses>,
                     k: nat, stop: nat)
    requires |responses| == |photos|
    requires k < stop <= |photos|
    requires RunPhotos(st, cfg, photos[..k + 1], responses[..k + 1]).outcome.Abort?
    ensures RunPhotos(st, cfg, photos[..stop], responses[..stop])
            == RunPhotos(st, cfg, photos[..k + 1], responses[..k + 1])
  {
    var ps, qs := photos[..k + 1], photos[k + 1..stop];
    var rs, ts := responses[..k + 1], responses[k + 1..stop];
    assert photos[..stop] == ps + qs;
    assert responses[..stop] == rs + ts;
    AbortSkipsRest(st, cfg, ps, qs, rs, ts);
  }

  lemma AbortSkipsRest(st: State, cfg: Config, ps: seq<Photo>, qs: seq<Photo>,
                       rs: seq<Responses>, ts: seq<Responses>)
    requires |rs| == |ps| && |ts| == |qs|
    requires RunPhotos(st, cfg, ps, rs).outcome.Abort?
    ensures RunPhotos(st, cfg, ps + qs, rs + ts) == RunPhotos(st, cfg, ps, rs)
  {
    RunAppend(st, cfg, ps, qs, rs, ts);
  }

  /** With distinct record names, the photos from the break index on (the newest
      `num_files_to_keep_in_icloud` ones) stay in the library. */
  lemma KeptPhotosStay(st: State, cfg: Config, photos: seq<Photo>, responses: seq<Responses>)
    requires |responses| == |photos|
    requires forall i, j :: 0 <= i < j < |photos| ==> photos[i].recordName != photos[j].recordName
    ensures var r := RunAll(st, cfg, photos, responses);
            forall i :: StopIndex(|photos|, cfg.numFilesToKeep, 0) <= i < |photos| ==>
                          photos[i].recordName in st.cloud ==> photos[i].recordName in r.after.cloud
  {
    var r := RunAll(st, cfg, photos, responses);
    var stop := StopIndex(|photos|, cfg.numFilesToKeep, 0);
    forall i | stop <= i < |photos| && photos[i].recordName in st.cloud
      ensures photos[i].recordName in r.after.cloud
    {
      assert forall j :: 0 <= j < r.processed ==> photos[j].recordName != photos[i].recordName;
    }
  }
}
