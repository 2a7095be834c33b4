/**
 * `listDownloadFiles` (server.js): every regular file directly inside the
 * audio directory, then every one inside the video directory, with its
 * modification time. The file system is given as a value: the entries
 * `readdirSync` lists for each existing directory, in that order, each with
 * what `statSync` reports for it.
 */
module Inventory {
  import opened Layout

  /** What `fs.statSync` reports for one directory entry. */
  datatype EntryKind =
    | RegularFile(mtimeMs: real)  // `isFile()` holds; `mtimeMs` is its modification time
    | OtherKind                   // a directory, link target that is not a file, ...
    | StatFails                   // `statSync` throws; the entry is skipped

  datatype Entry = Entry(name: string, kind: EntryKind)

  /** The directories that exist, each with its entries in `readdirSync` order. */
  type Directories = map<string, seq<Entry>>

  /** `{ path, mtimeMs }`, one element of the list. */
  datatype StoredFile = StoredFile(path: string, mtimeMs: real)

  /** `f` is the element entry `e` of `dir` contributes. */
  predicate Lists(platform: Platform, dir: string, e: Entry, f: StoredFile) {
    e.kind.RegularFile? && f == StoredFile(JoinPath(platform, dir, e.name), e.kind.mtimeMs)
  }

  /** What one entry adds: itself when it is a regular file, nothing otherwise. */
  function Contribution(platform: Platform, dir: string, e: Entry): seq<StoredFile> {
    if e.kind.RegularFile? then [StoredFile(JoinPath(platform, dir, e.name), e.kind.mtimeMs)] else []
  }

  /** The files the inner loop pushes for the entries of one directory. */
  function FilesIn(platform: Platform, dir: string, entries: seq<Entry>): seq<StoredFile>
    decreases |entries|
  {
    if |entries| == 0 then []
    else FilesIn(platform, dir, entries[..|entries| - 1]) + Contribution(platform, dir, entries[|entries| - 1])
  }

  /** The files the outer loop collects from `dirs`, skipping those that do not exist. */
  function FilesUnder(platform: Platform, fs: Directories, dirs: seq<string>): seq<StoredFile>
    decreases |dirs|
  {
    if |dirs| == 0 then []
    else
      var dir := dirs[|dirs| - 1];
      FilesUnder(platform, fs, dirs[..|dirs| - 1]) + (if dir in fs then FilesIn(platform, dir, fs[dir]) else [])
  }

  /** `[audioDir, videoDir]`, the order the directories are visited in. */
  function DownloadDirs(host: Host): seq<string> {
    [AudioDir(host), VideoDir(host)]
  }

  /** The list `listDownloadFiles()` returns. */
  function DownloadFiles(host: Host, fs: Directories): seq<StoredFile> {
    FilesUnder(host.platform, fs, DownloadDirs(host))
  }

  /** `listDownloadFiles()`: nested loops pushing onto `result`. */
  method ListDownloadFiles(host: Host, fs: Directories) returns (result: seq<StoredFile>)
    ensures result == DownloadFiles(host, fs)
  {
    result := [];
    var dirs := DownloadDirs(host);
    for d := 0 to |dirs|
      invariant result == FilesUnder(host.platform, fs, dirs[..d])
    {
      var dir := dirs[d];
      assert dirs[..d + 1][..d] == dirs[..d];
      if dir !in fs {
        continue;
      }
      var entries := fs[dir];
      for k := 0 to |entries|
        invariant result == FilesUnder(host.platform, fs, dirs[..d]) + FilesIn(host.platform, dir, entries[..k])
      {
        var entry := entries[k];
        assert entries[..k + 1][..k] == entries[..k];
        var fullPath := JoinPath(host.platform, dir, entry.name);
        match entry.kind {
          case RegularFile(mtimeMs) =>
            result := result + [StoredFile(fullPath, mtimeMs)];
          case OtherKind =>
          case StatFails =>
        }
      }
      assert entries[..|entries|] == entries;
    }
    assert dirs[..|dirs|] == dirs;
  }

  /** A file is listed for a directory exactly when one of its entries is a
      regular file with that path and time. */
  lemma {:induction false} FilesInMembers(platform: Platform, dir: string, entries: seq<Entry>, f: StoredFile)
    ensures f in FilesIn(platform, dir, entries) <==>
            exists i :: 0 <= i < |entries| && Lists(platform, dir, entries[i], f)
    decreases |entries|
  {
    if |entries| > 0 {
      var init := entries[..|entries| - 1];
      FilesInMembers(platform, dir, init, f);
      assert forall i :: 0 <= i < |init| ==> init[i] == entries[i];
      if exists i :: 0 <= i < |entries| && Lists(platform, dir, entries[i], f) {
        var i :| 0 <= i < |entries| && Lists(platform, dir, entries[i], f);
        if i < |init| {
          assert Lists(platform, dir, init[i], f);
        }
      }
    }
  }

  /** A file is in the inventory exactly when the audio or the video
      directory exists and holds an entry that is a regular file with that
      path and time. */
  lemma InventoryMembers(host: Host, fs: Directories, f: StoredFile)
    ensures f in DownloadFiles(host, fs) <==>
            exists dir, i :: dir in DownloadDirs(host) && dir in fs && 0 <= i < |fs[dir]| &&
                             Lists(host.platform, dir, fs[dir][i], f)
  {
    var dirs := DownloadDirs(host);
    var audio := if dirs[0] in fs then FilesIn(host.platform, dirs[0], fs[dirs[0]]) else [];
    var video := if dirs[1] in fs then FilesIn(host.platform, dirs[1], fs[dirs[1]]) else [];
    AudioBeforeVideo(host, fs);
    if dirs[0] in fs {
      FilesInMembers(host.platform, dirs[0], fs[dirs[0]], f);
    }
    if dirs[1] in fs {
      FilesInMembers(host.platform, dirs[1], fs[dirs[1]], f);
    }
  }

  /** Files of the audio directory come before those of the video directory. */
  lemma AudioBeforeVideo(host: Host, fs: Directories)
    ensures var audio := if AudioDir(host) in fs then FilesIn(host.platform, AudioDir(host), fs[AudioDir(host)]) else [];
            var video := if VideoDir(host) in fs then FilesIn(host.platform, VideoDir(host), fs[VideoDir(host)]) else [];
            DownloadFiles(host, fs) == audio + video
  {
    var dirs := DownloadDirs(host);
    var p := host.platform;
    assert dirs[..1] == [dirs[0]];
    assert dirs[..1][..0] == [];
    assert FilesUnder(p, fs, dirs[..0]) == [];
    assert FilesUnder(p, fs, dirs[..1]) == FilesUnder(p, fs, dirs[..1][..0]) +
      (if dirs[0] in fs then FilesIn(p, dirs[0], fs[dirs[0]]) else []);
    assert FilesUnder(p, fs, dirs) == FilesUnder(p, fs, dirs[..1]) +
      (if dirs[1] in fs then FilesIn(p, dirs[1], fs[dirs[1]]) else []);
  }
}
