/** The `iCloudLess` object: the settings fixed by `__init__`, the local filesystem and
    the remote library it changes, and the methods of its synchronisation pipeline.
    Each method is proved to leave exactly the outcome and state that the matching
    function of `Pipeline` describes. */
module Sync {
  import opened Naming
  import opened Pipeline

  class ICloudLess {
    const targetDir: string
    const photosPath: string
    const favoritesPath: string
    const deleteDownloadedFiles: bool
    const numFilesToKeep: int

    /** Local files and their sizes. */
    var files: map<string, nat>
    /** Local directories. */
    var dirs: set<string>
    /** Record names of the photos still in the remote library. */
    var cloud: set<string>

    function Settings(): Config {
      Config(photosPath, favoritesPath, deleteDownloadedFiles, numFilesToKeep)
    }

    function Snapshot(): State
      reads this
    {
      State(files, dirs, cloud)
    }

    ghost predicate Valid()
      reads this
    {
      Pipeline.Valid(Snapshot())
    }

    /** `__init__` once the configuration has been read: `targetDir` is the target
        directory with the run directory's (date-formatted) name already appended. */
    constructor (targetDir: string, photosDir: string, favoritesDir: string,
                 deleteDownloadedFiles: bool, numFilesToKeep: int,
                 files: map<string, nat>, dirs: set<string>, cloud: set<string>)
      requires files.Keys !! dirs
      ensures Valid()
      ensures this.targetDir == targetDir
      ensures photosPath == targetDir + photosDir && favoritesPath == targetDir + favoritesDir
      ensures this.deleteDownloadedFiles == deleteDownloadedFiles
      ensures this.numFilesToKeep == numFilesToKeep
      ensures Snapshot() == State(files, dirs, cloud)
    {
      this.targetDir := targetDir;
      this.photosPath := targetDir + photosDir;
      this.favoritesPath := targetDir + favoritesDir;
      this.deleteDownloadedFiles := deleteDownloadedFiles;
      this.numFilesToKeep := numFilesToKeep;
      this.files := files;
      this.dirs := dirs;
      this.cloud := cloud;
    }

    /** `create_dir`; `mkdirOk` says whether the operating system grants `os.mkdir`. */
    method CreateDir(path: string, mkdirOk: bool) returns (outcome: Outcome)
      requires Valid()
      modifies this
      ensures Valid()
      ensures Step(outcome, Snapshot()) == MakeDir(old(Snapshot()), path, mkdirOk)
    {
      if path !in dirs {
        if mkdirOk && path !in files {
          dirs := dirs + {path};
          outcome := Done;
        } else {
          outcome := Abort(CannotCreateDir(path));
        }
      } else {
        outcome := Done;
      }
    }

    /** The run, photos and favorites directories that `__init__` creates in turn. */
    method CreateRunDirectories(targetOk: bool, photosOk: bool, favoritesOk: bool)
      returns (outcome: Outcome)
      requires Valid()
      modifies this
      ensures Valid()
      ensures Step(outcome, Snapshot())
              == MakeDirs(old(Snapshot()), [targetDir, photosPath, favoritesPath],
                          [targetOk, photosOk, favoritesOk])
    {
      ghost var start := Snapshot();
      ghost var paths := [targetDir, photosPath, favoritesPath];
      ghost var oks := [targetOk, photosOk, favoritesOk];
      assert paths[..1][..0] == [] && oks[..1][..0] == [];
      assert paths[..2][..1] == paths[..1] && oks[..2][..1] == oks[..1];
      assert paths[..3] == paths && oks[..3] == oks;
      outcome := CreateDir(targetDir, targetOk);
      assert Step(outcome, Snapshot()) == MakeDirs(start, paths[..1], oks[..1]);
      if outcome.Abort? { return; }
      outcome := CreateDir(photosPath, photosOk);
      assert Step(outcome, Snapshot()) == MakeDirs(start, paths[..2], oks[..2]);
      if outcome.Abort? { return; }
      outcome := CreateDir(favoritesPath, favoritesOk);
    }

    /** Downloading a photo and writing it to `path`. */
    method WriteDownload(path: string, download: Download) returns (outcome: Outcome)
      requires Valid()
      modifies this
      ensures Valid()
      ensures Step(outcome, Snapshot()) == Write(old(Snapshot()), path, download)
    {
      if path in dirs {
        outcome := Abort(CannotWrite(path));
        return;
      }
      match download {
        case FetchFailed(residue) =>
          if residue.Some? {
            files := files[path := residue.value];
          }
          outcome := Abort(CannotWrite(path));
        case Fetched(n) =>
          files := files[path := n];
          outcome := Done;
      }
    }

    /** `save_file_from_icloud_to_local_file_system` for a photo whose
        `filename_unique` is `name`. */
    method SaveFile(photo: Photo, name: string, download: Download) returns (outcome: Outcome)
      requires Valid()
      requires name == UniqueName(photo.filename, photo.recordName)
      modifies this
      ensures Valid()
      ensures Step(outcome, Snapshot()) == Save(old(Snapshot()), Settings(), photo, name, download)
    {
      var path := photosPath + name;
      if path !in files {
        outcome := WriteDownload(path, download);
        if outcome.Abort? { return; }
      } else if files[path] == photo.size {
        // Already downloaded: nothing to do.
      } else {
        path := DuplicatePath(photosPath, name);
        outcome := WriteDownload(path, download);
        if outcome.Abort? { return; }
      }
      outcome := Check(files, path, photo.size);
    }

    /** `copy_file_to_favorites` for a photo whose `filename_unique` is `name`. */
    method CopyToFavorites(photo: Photo, name: string, result: CopyResult) returns (outcome: Outcome)
      requires Valid()
      requires name == UniqueName(photo.filename, photo.recordName)
      modifies this
      ensures Valid()
      ensures Step(outcome, Snapshot()) == Favorite(old(Snapshot()), Settings(), photo, name, result)
    {
      var src := photosPath + name;
      var dst := favoritesPath + name;
      if src !in files || src == dst || dst in dirs {
        outcome := Abort(CannotCopy(src, dst));
        return;
      }
      match result {
        case CopyFailed(residue) =>
          if residue.Some? {
            files := files[dst := residue.value];
          }
          outcome := Abort(CannotCopy(src, dst));
        case Copied =>
          files := files[dst := files[src]];
          outcome := Check(files, dst, photo.size);
      }
    }

    /** `delete_file_in_cloud`; `deleteOk` says whether the library accepted the delete. */
    method DeleteInCloud(photo: Photo, deleteOk: bool) returns (outcome: Outcome)
      requires Valid()
      modifies this
      ensures Valid()
      ensures Step(outcome, Snapshot()) == Delete(old(Snapshot()), photo, deleteOk)
    {
      if deleteOk {
        cloud := cloud - {photo.recordName};
        outcome := Done;
      } else {
        outcome := Abort(CannotDelete(photo.recordName));
      }
    }

    /** The body of the loop in `run` for one photo whose `filename_unique` is `name`:
        save it, copy it to the favorites when it is one, and delete it from the
        library when so configured, each step only if the previous one went through. */
    method ProcessOne(photo: Photo, name: string, resp: Responses) returns (outcome: Outcome)
      requires Valid()
      requires name == UniqueName(photo.filename, photo.recordName)
      modifies this
      ensures Valid()
      ensures Step(outcome, Snapshot()) == ProcessPhoto(old(Snapshot()), Settings(), photo, name, resp)
    {
      outcome := SaveFile(photo, name, resp.download);
      if outcome.Done? && IsFavorite(photo) {
        outcome := CopyToFavorites(photo, name, resp.copy);
      }
      if outcome.Done? && deleteDownloadedFiles {
        outcome := DeleteInCloud(photo, resp.deleteOk);
      }
    }

    /** `run`: walk the photos in the order given, stop once `index` reaches
        `len(photos) - num_files_to_keep_in_icloud`, and put each photo through the
        save, favorite and delete steps; the first abort ends the run. */
    method Run(photos: seq<Photo>, responses: seq<Responses>) returns (outcome: Outcome, processed: nat)
      requires Valid()
      requires |responses| == |photos|
      modifies this
      ensures Valid()
      ensures RunResult(outcome, processed, Snapshot()) == RunAll(old(Snapshot()), Settings(), photos, responses)
    {
      ghost var start := Snapshot();
      ghost var stop := StopIndex(|photos|, numFilesToKeep, 0);
      var total := |photos|;
      var num := numFilesToKeep;
      var index := 0;
      while index < total
        invariant index <= stop
        invariant Valid()
        invariant RunPhotos(start, Settings(), photos[..index], responses[..index])
                  == RunResult(Done, index, Snapshot())
      {
        if index == total - num {
          assert index == stop;
          break;
        }
        var photo := photos[index];
        var name := UniqueName(photo.filename, photo.recordName);
        ghost var before := Snapshot();
        var step := ProcessOne(photo, name, responses[index]);
        RunPhotosExtend(start, Settings(), photos, responses, index);
        if step.Abort? {
          AbortEndsRun(start, Settings(), photos, responses, index, stop);
          outcome, processed := step, index;
          return;
        }
        index := index + 1;
      }
      assert index == stop && photos[..stop] == photos[..index];
      outcome, processed := Done, index;
    }

    /** `main`: create the run directories as `__init__` does, then `run` unless one of
        the `create_dir` calls ended the program. */
    method RunSession(targetOk: bool, photosOk: bool, favoritesOk: bool,
                      photos: seq<Photo>, responses: seq<Responses>)
      returns (outcome: Outcome, processed: nat)
      requires Valid()
      requires |responses| == |photos|
      modifies this
      ensures Valid()
      ensures RunResult(outcome, processed, Snapshot())
              == Session(old(Snapshot()), Settings(), targetDir, [targetOk, photosOk, favoritesOk],
                         photos, responses)
    {
      outcome := CreateRunDirectories(targetOk, photosOk, favoritesOk);
      if outcome.Abort? {
        processed := 0;
        return;
      }
      outcome, processed := Run(photos, responses);
    }
  }
}
