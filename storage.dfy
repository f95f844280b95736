/** The flat note folder that react-native-fs exposes to both screens.

    The folder is abstracted as a flag saying whether the directory exists and a
    map from file name to text. A path is the folder path, a slash and a name.
    Whether a platform call fails is fixed by a `Platform` value: a set of paths
    the device refuses to touch (permissions, storage errors), a set of paths
    only writes to which fail, and whether `copyFile` overwrites an existing
    destination. */
module Storage {

  datatype Option<T> = None | Some(value: T)

  /** The error kinds a storage call or a save can end in. */
  datatype Error = NotFound | AlreadyExists | StorageUnavailable | ValidationError

  datatype Outcome = Done | Failed(error: Error)

  datatype Result<T> = Ok(value: T) | Err(error: Error)

  /** The folder's state: whether the directory exists and its files by name. */
  datatype Store = Store(folderExists: bool, files: map<string, string>)

  /** What the device decides: which paths fail with an I/O error on every
      call, which paths fail only when written (a full disk, say, lets an
      unlink through and then refuses the write), and whether copying onto an
      existing file replaces it. */
  datatype Platform = Platform(denied: set<string>, writeDenied: set<string>, copyOverwrites: bool)

  /** The outcome of one storage call together with the store it leaves. */
  datatype Step = Step(outcome: Outcome, store: Store)

  /** One item of a directory listing. */
  datatype Entry = Entry(name: string, path: string)

  /** `${RNFS.DownloadDirectoryPath}/DotAll`; the prefix stands for the
      platform's download directory. */
  const Folder: string := "Download/DotAll"

  /** A store never holds files in a folder that does not exist. */
  predicate Consistent(st: Store)
  {
    st.folderExists || st.files == map[]
  }

  /** `${pasta}/${name}`. */
  function PathOf(name: string): (p: string)
    ensures |p| == |Folder| + 1 + |name|
  {
    Folder + "/" + name
  }

  /** The name a path denotes inside the folder, if it lies in the folder. */
  function NameOf(path: string): (r: Option<string>)
    ensures r.Some? ==> PathOf(r.value) == path
  {
    if |path| > |Folder| && path[..|Folder| + 1] == Folder + "/" then Some(path[|Folder| + 1..]) else None
  }

  /** NameOf undoes PathOf: every file name is recovered from its path. */
  lemma NameOfPathOf(name: string)
    ensures NameOf(PathOf(name)) == Some(name)
  {
    var p := PathOf(name);
    assert p[..|Folder| + 1] == Folder + "/";
    assert p[|Folder| + 1..] == name;
  }

  /** There is a file at `path`. */
  predicate HasFile(st: Store, path: string)
  {
    NameOf(path).Some? && NameOf(path).value in st.files
  }

  /** `RNFS.exists`: the folder itself, or a file in it. */
  function PathExists(st: Store, path: string): (b: bool)
    ensures HasFile(st, path) ==> b
    ensures b && path != Folder ==> HasFile(st, path)
    ensures path == Folder ==> (b <==> st.folderExists)
  {
    (path == Folder && st.folderExists) || HasFile(st, path)
  }

  /** `RNFS.mkdir` of the folder. */
  function MkdirStep(st: Store, env: Platform): (r: Step)
    ensures r.outcome.Done? <==> Folder !in env.denied
    ensures r.outcome.Done? ==> r.store == Store(true, st.files)
    ensures r.outcome.Failed? ==> r.store == st
    ensures Consistent(st) ==> Consistent(r.store)
  {
    if Folder in env.denied then Step(Failed(StorageUnavailable), st)
    else Step(Done, st.(folderExists := true))
  }

  /** `RNFS.unlink` of one file. */
  function UnlinkStep(st: Store, env: Platform, path: string): (r: Step)
    ensures r.outcome.Done? <==> HasFile(st, path) && path !in env.denied
    ensures r.outcome.Done? ==> r.store == st.(files := st.files - {NameOf(path).value})
    ensures r.outcome.Failed? ==> r.store == st
    ensures !HasFile(st, path) ==> r.outcome == Failed(NotFound)
    ensures Consistent(st) ==> Consistent(r.store)
  {
    if !HasFile(st, path) then Step(Failed(NotFound), st)
    else if path in env.denied then Step(Failed(StorageUnavailable), st)
    else Step(Done, st.(files := st.files - {NameOf(path).value}))
  }

  /** `RNFS.writeFile`: creates or replaces one file in an existing folder. */
  function WriteStep(st: Store, env: Platform, path: string, text: string): (r: Step)
    ensures r.outcome.Done? <==>
              NameOf(path).Some? && st.folderExists && path !in env.denied && path !in env.writeDenied
    ensures r.outcome.Done? ==> r.store == st.(files := st.files[NameOf(path).value := text])
    ensures r.outcome.Failed? ==> r.store == st
    ensures Consistent(st) ==> Consistent(r.store)
  {
    if NameOf(path).None? || !st.folderExists then Step(Failed(NotFound), st)
    else if path in env.denied || path in env.writeDenied then Step(Failed(StorageUnavailable), st)
    else Step(Done, st.(files := st.files[NameOf(path).value := text]))
  }

  /** `RNFS.copyFile`: the destination receives the source's current text. */
  function CopyStep(st: Store, env: Platform, src: string, dst: string): (r: Step)
    ensures r.outcome.Done? <==>
              && HasFile(st, src) && NameOf(dst).Some?
              && src !in env.denied && dst !in env.denied
              && (HasFile(st, dst) ==> env.copyOverwrites)
    ensures r.outcome.Done? ==>
              r.store == st.(files := st.files[NameOf(dst).value := st.files[NameOf(src).value]])
    ensures r.outcome.Failed? ==> r.store == st
    ensures !HasFile(st, src) ==> r.outcome == Failed(NotFound)
    ensures Consistent(st) ==> Consistent(r.store)
  {
    if !HasFile(st, src) || NameOf(dst).None? then Step(Failed(NotFound), st)
    else if src in env.denied || dst in env.denied then Step(Failed(StorageUnavailable), st)
    else if HasFile(st, dst) && !env.copyOverwrites then Step(Failed(AlreadyExists), st)
    else Step(Done, st.(files := st.files[NameOf(dst).value := st.files[NameOf(src).value]]))
  }

  /** `RNFS.readFile` of one file. */
  function ReadStep(st: Store, env: Platform, path: string): (r: Result<string>)
    ensures r.Ok? <==> HasFile(st, path) && path !in env.denied
    ensures r.Ok? ==> r.value == st.files[NameOf(path).value]
  {
    if !HasFile(st, path) then Err(NotFound)
    else if path in env.denied then Err(StorageUnavailable)
    else Ok(st.files[NameOf(path).value])
  }

  /** `RNFS.readDir` of the folder succeeds exactly when this holds. */
  predicate CanList(st: Store, env: Platform)
  {
    st.folderExists && Folder !in env.denied
  }

  function Names(es: seq<Entry>): set<string>
  {
    set i | 0 <= i < |es| :: es[i].name
  }

  /** `es` lists every file of `files` exactly once, each with its path. */
  predicate Listing(files: map<string, string>, es: seq<Entry>)
  {
    && Names(es) == files.Keys
    && (forall i :: 0 <= i < |es| ==> es[i].path == PathOf(es[i].name))
    && (forall i, j :: 0 <= i < j < |es| ==> es[i].name != es[j].name)
  }

  /** The device's file system, shared by both screens. */
  class FileSystem {
    var folderExists: bool
    var files: map<string, string>
    const platform: Platform

    function State(): Store
      reads this
    {
      Store(folderExists, files)
    }

    constructor (st: Store, env: Platform)
      ensures State() == st && platform == env
    {
      folderExists, files, platform := st.folderExists, st.files, env;
    }

    method Exists(path: string) returns (b: bool)
      ensures b == PathExists(State(), path)
    {
      b := PathExists(State(), path);
    }

    method Mkdir() returns (o: Outcome)
      modifies this
      ensures Step(o, State()) == MkdirStep(old(State()), platform)
    {
      var s := MkdirStep(State(), platform);
      o, folderExists, files := s.outcome, s.store.folderExists, s.store.files;
    }

    method Unlink(path: string) returns (o: Outcome)
      modifies this
      ensures Step(o, State()) == UnlinkStep(old(State()), platform, path)
    {
      var s := UnlinkStep(State(), platform, path);
      o, folderExists, files := s.outcome, s.store.folderExists, s.store.files;
    }

    method WriteFile(path: string, text: string) returns (o: Outcome)
      modifies this
      ensures Step(o, State()) == WriteStep(old(State()), platform, path, text)
    {
      var s := WriteStep(State(), platform, path, text);
      o, folderExists, files := s.outcome, s.store.folderExists, s.store.files;
    }

    method CopyFile(src: string, dst: string) returns (o: Outcome)
      modifies this
      ensures Step(o, State()) == CopyStep(old(State()), platform, src, dst)
    {
      var s := CopyStep(State(), platform, src, dst);
      o, folderExists, files := s.outcome, s.store.folderExists, s.store.files;
    }

    method ReadFile(path: string) returns (r: Result<string>)
      ensures r == ReadStep(State(), platform, path)
    {
      r := ReadStep(State(), platform, path);
    }

    /** Lists the folder in an order the platform chooses. */
    method ReadDir() returns (r: Result<seq<Entry>>)
      ensures r.Ok? <==> CanList(State(), platform)
      ensures r.Ok? ==> Listing(files, r.value)
    {
      if !folderExists {
        return Err(NotFound);
      }
      if Folder in platform.denied {
        return Err(StorageUnavailable);
      }
      var left := files.Keys;
      var es: seq<Entry> := [];
      while left != {}
        invariant left <= files.Keys
        invariant Names(es) == files.Keys - left
        invariant forall i :: 0 <= i < |es| ==> es[i].path == PathOf(es[i].name)
        invariant forall i, j :: 0 <= i < j < |es| ==> es[i].name != es[j].name
        decreases left
      {
        var n :| n in left;
        assert n !in Names(es);
        assert Names(es + [Entry(n, PathOf(n))]) == Names(es) + {n} by {
          var es' := es + [Entry(n, PathOf(n))];
          assert es'[|es|].name == n;
          forall m | m in Names(es') ensures m in Names(es) + {n} {
            var i :| 0 <= i < |es'| && es'[i].name == m;
            if i < |es| { assert es[i].name == m; }
          }
          forall m | m in Names(es) ensures m in Names(es') {
            var i :| 0 <= i < |es| && es[i].name == m;
            assert es'[i].name == m;
          }
        }
        es := es + [Entry(n, PathOf(n))];
        left := left - {n};
      }
      r := Ok(es);
    }
  }
}
