/** The browse screen (screens/HomeScreen.tsx): the listing snapshot, the
    multi-selection and the best-effort delete and duplicate batches. */
module Home {
  import opened Storage
  import Editor

  const CopySuffix: string := "_copia"

  // ---------------------------------------------------------------------------
  // The duplicate name

  /** `path.split('/').pop()`: the longest suffix without a slash. */
  function LastSegment(path: string): (seg: string)
    ensures '/' !in seg
    ensures |seg| <= |path| && seg == path[|path| - |seg|..]
    ensures |seg| < |path| ==> path[|path| - |seg| - 1] == '/'
    decreases |path|
  {
    if path == [] || path[|path| - 1] == '/' then []
    else LastSegment(path[..|path| - 1]) + [path[|path| - 1]]
  }

  /** The last segment of a file's path is its name. */
  lemma LastSegmentOfPath(name: string)
    requires '/' !in name
    ensures LastSegment(PathOf(name)) == name
  {
    var p := PathOf(name);
    var seg := LastSegment(p);
    assert p[|Folder|] == '/';
    assert seg == p[|Folder| + 1..] == name;
  }

  /** `\.[^.]+$` matches `s` from index `i`: a dot, then one or more
      characters up to the end, none of them a dot. */
  predicate ExtensionAt(s: string, i: nat)
    ensures ExtensionAt(s, i) ==> i + 1 < |s| && s[i] == '.' && s[|s| - 1] != '.'
  {
    i + 1 < |s| && s[i] == '.' && '.' !in s[i + 1..]
  }

  /** The leftmost index from `i` on where `(\.[^.]+)?$` matches. */
  function FirstMatch(s: string, i: nat): (k: nat)
    requires i <= |s|
    ensures i <= k <= |s|
    ensures k == |s| || ExtensionAt(s, k)
    decreases |s| - i
  {
    if i == |s| || ExtensionAt(s, i) then i else FirstMatch(s, i + 1)
  }

  /** `name.replace(/(\.[^.]+)?$/, '_copia$1')`: the first match is replaced by
      the suffix followed by the matched extension, if any. */
  function CopyName(name: string): (r: string)
    ensures |r| == |name| + |CopySuffix|
    ensures '/' !in name ==> '/' !in r
  {
    var k := FirstMatch(name, 0);
    if k == |name| then name + CopySuffix
    else
      var r := name[..k] + CopySuffix + name[k..];
      assert forall c :: c in r ==> c in name[..k] || c in CopySuffix || c in name[k..];
      r
  }

  /** The index of the last dot of `s`, if there is one. */
  function LastDot(s: string): (r: Option<nat>)
    ensures r.Some? ==> r.value < |s| && s[r.value] == '.' && '.' !in s[r.value + 1..]
    ensures r.None? ==> '.' !in s
    decreases |s|
  {
    if s == [] then None
    else if s[|s| - 1] == '.' then Some(|s| - 1)
    else
      var r := LastDot(s[..|s| - 1]);
      assert r.Some? ==> s[r.value + 1..] == s[..|s| - 1][r.value + 1..] + [s[|s| - 1]];
      assert s == s[..|s| - 1] + [s[|s| - 1]];
      r
  }

  /** The regular expression can only match a final extension at the last dot. */
  lemma {:induction false} ExtensionAtLastDot(s: string, i: nat)
    requires ExtensionAt(s, i)
    ensures LastDot(s) == Some(i)
    decreases |s|
  {
    var last := s[|s| - 1];
    assert last in s[i + 1..];
    var init := s[..|s| - 1];
    assert init[i] == '.';
    if i + 1 == |init| {
    } else {
      assert s[i + 1..] == init[i + 1..] + [last];
      ExtensionAtLastDot(init, i);
    }
  }

  /** The scan finds the final extension when there is one ... */
  lemma {:induction false} FirstMatchFinds(s: string, i: nat, d: nat)
    requires i <= d && ExtensionAt(s, d)
    ensures FirstMatch(s, i) == d
    decreases d - i
  {
    if ExtensionAt(s, i) {
      ExtensionAtLastDot(s, i);
      ExtensionAtLastDot(s, d);
    } else {
      FirstMatchFinds(s, i + 1, d);
    }
  }

  /** ... and the end of the name when there is none. */
  lemma {:induction false} FirstMatchAtEnd(s: string, i: nat)
    requires i <= |s|
    requires LastDot(s).None? || LastDot(s).value + 1 == |s|
    ensures FirstMatch(s, i) == |s|
    decreases |s| - i
  {
    if i < |s| {
      if ExtensionAt(s, i) {
        ExtensionAtLastDot(s, i);
      }
      FirstMatchAtEnd(s, i + 1);
    }
  }

  /** With a final extension starting at `d`, the suffix goes right before it. */
  lemma CopyNameBeforeExtension(name: string, d: nat)
    requires ExtensionAt(name, d)
    ensures CopyName(name) == name[..d] + CopySuffix + name[d..]
  {
    FirstMatchFinds(name, 0, d);
  }

  /** Without a final extension the suffix is appended. */
  lemma CopyNameAppends(name: string)
    requires LastDot(name).None? || LastDot(name).value + 1 == |name|
    ensures CopyName(name) == name + CopySuffix
  {
    FirstMatchAtEnd(name, 0);
  }

  /** The suffix goes immediately before the last dot when at least one
      character follows it. */
  lemma CopyNameAtLastDot(name: string, d: nat)
    requires LastDot(name) == Some(d) && d + 1 < |name|
    ensures CopyName(name) == name[..d] + CopySuffix + name[d..]
  {
    assert ExtensionAt(name, d);
    CopyNameBeforeExtension(name, d);
  }

  /** A name with one extension. */
  lemma CopyNameExampleExtension()
    ensures CopyName("note.txt") == "note_copia.txt"
  {
    assert ExtensionAt("note.txt", 4);
    CopyNameBeforeExtension("note.txt", 4);
  }

  /** A name with several dots: only the last one starts the extension. */
  lemma CopyNameExampleSeveralDots()
    ensures CopyName("a.b.c") == "a.b_copia.c"
  {
    assert ExtensionAt("a.b.c", 3);
    CopyNameBeforeExtension("a.b.c", 3);
  }

  /** A name without a dot, and one ending in a dot. */
  lemma CopyNameExamplesWithoutExtension()
    ensures CopyName("note") == "note_copia"
    ensures CopyName("file.") == "file._copia"
  {
    assert LastDot("note") == None;
    CopyNameAppends("note");
    assert LastDot("file.") == Some(4);
    CopyNameAppends("file.");
  }

  /** The duplicate's name: the copy name of the path's last segment. */
  function DupName(path: string): (n: string)
    ensures |n| == |LastSegment(path)| + |CopySuffix|
    ensures '/' !in n
  {
    CopyName(LastSegment(path))
  }

  /** `${pasta}/${novoNome}`. */
  function DupPath(path: string): (p: string)
    ensures NameOf(p) == Some(DupName(path))
  {
    NameOfPathOf(DupName(path));
    PathOf(DupName(path))
  }

  /** The duplicate's name is six characters longer than the source's last
      segment, and its path never equals the source path. */
  lemma DupPathDiffers(path: string)
    ensures |DupName(path)| == |LastSegment(path)| + 6
    ensures '/' !in DupName(path)
    ensures DupPath(path) != path
  {
    LastSegmentOfPath(DupName(path));
  }

  /** For a file listed in the folder the duplicate is the copy name of the
      file's own name. */
  lemma DupNameOfListed(name: string)
    requires '/' !in name
    ensures DupName(PathOf(name)) == CopyName(name)
  {
    LastSegmentOfPath(name);
  }

  // ---------------------------------------------------------------------------
  // The selection list

  predicate NoDuplicates(s: seq<string>)
  {
    forall i, j :: 0 <= i < j < |s| ==> s[i] != s[j]
  }

  /** `selecionados.filter(p => p !== path)`. */
  function Without(s: seq<string>, p: string): (r: seq<string>)
    ensures p !in r
    ensures forall q :: q != p ==> (q in r <==> q in s)
    ensures p !in s ==> r == s
    ensures NoDuplicates(s) ==> NoDuplicates(r)
    decreases |s|
  {
    if s == [] then []
    else if s[0] == p then Without(s[1..], p)
    else
      var rest := Without(s[1..], p);
      assert NoDuplicates(s) ==> s[0] !in s[1..] && NoDuplicates(s[1..]) by {
        if NoDuplicates(s) {
          forall i | 0 < i < |s| ensures s[i] != s[0] { }
        }
      }
      [s[0]] + rest
  }

  /** Filtering keeps the order of the other paths: it works piecewise on a
      concatenation, and keeps a single path exactly when it is not `p`. */
  lemma {:induction false} WithoutConcat(s: seq<string>, t: seq<string>, p: string)
    ensures Without(s + t, p) == Without(s, p) + Without(t, p)
    ensures Without([p], p) == [] && forall q :: q != p ==> Without([q], p) == [q]
    decreases |s|
  {
    if s == [] {
      assert s + t == t;
    } else {
      assert (s + t)[1..] == s[1..] + t;
      WithoutConcat(s[1..], t, p);
    }
    assert [p][1..] == [];
    forall q | q != p ensures Without([q], p) == [q] {
      assert [q][1..] == [];
    }
  }

  /** Filtering out `p` ignores a `p` appended at the end. */
  lemma {:induction false} WithoutAppended(s: seq<string>, p: string)
    ensures Without(s + [p], p) == Without(s, p)
    decreases |s|
  {
    if s == [] {
      assert [p][1..] == [];
    } else {
      assert (s + [p])[1..] == s[1..] + [p];
      WithoutAppended(s[1..], p);
    }
  }

  /** `toggleSelecionar` on the list. */
  function Toggled(sel: seq<string>, p: string): (r: seq<string>)
    ensures p in r <==> p !in sel
    ensures forall q :: q != p ==> (q in r <==> q in sel)
    ensures Without(r, p) == Without(sel, p)
    ensures NoDuplicates(sel) ==> NoDuplicates(r)
  {
    if p in sel then Without(sel, p)
    else
      WithoutAppended(sel, p);
      sel + [p]
  }

  /** Toggling an unselected path twice restores the list. */
  lemma ToggleTwiceRestores(sel: seq<string>, p: string)
    requires p !in sel
    ensures Toggled(Toggled(sel, p), p) == sel
  {
    WithoutAppended(sel, p);
  }

  /** Toggling a selected path twice moves it to the end of the list. */
  lemma ToggleTwiceMovesToEnd(sel: seq<string>, p: string)
    requires p in sel
    ensures Toggled(Toggled(sel, p), p) == Without(sel, p) + [p]
  {
  }

  // ---------------------------------------------------------------------------
  // The best-effort batches

  /** The two batch operations of the selection bar. */
  datatype Op = Delete | Duplicate(rename: string -> string)

  /** The store after a batch, and the paths whose call threw (the ones the
      source logs with `console.error`). */
  datatype Batch = Batch(store: Store, failed: seq<string>)

  /** One iteration: `RNFS.unlink(path)` or `RNFS.copyFile(path, novoPath)`. */
  function Apply(op: Op, st: Store, env: Platform, path: string): (r: Step)
    ensures r.store.folderExists == st.folderExists
  {
    match op
    case Delete => UnlinkStep(st, env, path)
    case Duplicate(rename) => CopyStep(st, env, path, PathOf(rename(path)))
  }

  /** One iteration applied to the batch so far: a call that throws adds its
      path to the log and leaves the store as it was. */
  function Next(op: Op, b: Batch, env: Platform, path: string): (r: Batch)
    ensures r.store.folderExists == b.store.folderExists
    ensures r.failed == b.failed || r.failed == b.failed + [path]
    ensures r.failed == b.failed <==> Apply(op, b.store, env, path).outcome.Done?
    ensures Consistent(b.store) ==> Consistent(r.store)
  {
    var s := Apply(op, b.store, env, path);
    Batch(s.store, if s.outcome.Done? then b.failed else b.failed + [path])
  }

  /** The `for (const path of selecionados)` loop: every path is tried in
      list order, and a call that throws is only logged. */
  function Run(op: Op, st: Store, env: Platform, paths: seq<string>): (b: Batch)
    ensures b.store.folderExists == st.folderExists
    ensures forall p :: p in b.failed ==> p in paths
    ensures |b.failed| <= |paths|
    ensures Consistent(st) ==> Consistent(b.store)
    decreases |paths|
  {
    if paths == [] then Batch(st, [])
    else
      var init := paths[..|paths| - 1];
      var p := paths[|paths| - 1];
      assert forall q :: q in init ==> q in paths;
      Next(op, Run(op, st, env, init), env, p)
  }

  /** Extending the list by one path runs one more iteration. */
  lemma RunStep(op: Op, st: Store, env: Platform, paths: seq<string>, i: nat)
    requires i < |paths|
    ensures Run(op, st, env, paths[..i + 1]) == Next(op, Run(op, st, env, paths[..i]), env, paths[i])
  {
    assert paths[..i + 1][..i] == paths[..i];
  }

  /** A failing item does not stop the loop: running over `xs + ys` is running
      over `xs` and then, from the store it left, over `ys`. */
  lemma {:induction false} RunAppend(op: Op, st: Store, env: Platform, xs: seq<string>, ys: seq<string>)
    ensures var first := Run(op, st, env, xs);
            var second := Run(op, first.store, env, ys);
            Run(op, st, env, xs + ys) == Batch(second.store, first.failed + second.failed)
    decreases |ys|
  {
    if ys == [] {
      assert xs + ys == xs;
    } else {
      var ys' := ys[..|ys| - 1];
      assert (xs + ys)[..|xs + ys| - 1] == xs + ys';
      assert (xs + ys)[|xs + ys| - 1] == ys[|ys| - 1];
      RunAppend(op, st, env, xs, ys');
    }
  }

  /** The names a delete batch removes: those of the selected paths in the
      folder that the device does not refuse. */
  function Doomed(paths: seq<string>, env: Platform): set<string>
  {
    set p | p in paths && p !in env.denied && NameOf(p).Some? :: NameOf(p).value
  }

  /** One more path dooms at most its own name. */
  lemma DoomedStep(paths: seq<string>, env: Platform)
    requires paths != []
    ensures var p := paths[|paths| - 1];
            Doomed(paths, env) ==
              Doomed(paths[..|paths| - 1], env)
              + (if p !in env.denied && NameOf(p).Some? then {NameOf(p).value} else {})
  {
    var init := paths[..|paths| - 1];
    var p := paths[|paths| - 1];
    var extra: set<string> := if p !in env.denied && NameOf(p).Some? then {NameOf(p).value} else {};
    assert paths == init + [p];
    forall n | n in Doomed(paths, env) ensures n in Doomed(init, env) + extra {
      var q :| q in paths && q !in env.denied && NameOf(q).Some? && NameOf(q).value == n;
      if q != p {
        assert q in init;
      }
    }
    forall n | n in Doomed(init, env) ensures n in Doomed(paths, env) {
      var q :| q in init && q !in env.denied && NameOf(q).Some? && NameOf(q).value == n;
      assert q in paths;
    }
  }

  /** After the delete loop the store is the old one minus exactly the doomed
      names: no selected path that the device lets go is left, and every other
      entry keeps its text. */
  lemma {:induction false} DeleteRemovesExactly(st: Store, env: Platform, paths: seq<string>)
    ensures Run(Delete, st, env, paths).store == st.(files := st.files - Doomed(paths, env))
    decreases |paths|
  {
    if paths == [] {
      assert Doomed(paths, env) == {};
      assert st.files - {} == st.files;
    } else {
      var init := paths[..|paths| - 1];
      var p := paths[|paths| - 1];
      DeleteRemovesExactly(st, env, init);
      DoomedStep(paths, env);
      var extra: set<string> := if p !in env.denied && NameOf(p).Some? then {NameOf(p).value} else {};
      var prev := st.files - Doomed(init, env);
      var after := UnlinkStep(Store(st.folderExists, prev), env, p).store.files;
      assert after == st.files - (Doomed(init, env) + extra);
    }
  }

  /** The delete loop leaves none of the selected files the device lets go,
      and leaves every entry no selected path names unchanged. */
  lemma DeleteLeavesNoSelected(st: Store, env: Platform, paths: seq<string>)
    ensures var after := Run(Delete, st, env, paths).store;
            && (forall p :: p in paths && p !in env.denied ==> !HasFile(after, p))
            && (forall n :: n in st.files && (forall p :: p in paths ==> NameOf(p) != Some(n)) ==>
                  n in after.files && after.files[n] == st.files[n])
  {
    DeleteRemovesExactly(st, env, paths);
  }

  /** The paths a delete batch logs, in list order: those with no file in the
      store before the batch, and those the device refuses. */
  function DeleteFailures(st: Store, env: Platform, paths: seq<string>): (r: seq<string>)
    ensures forall p :: p in r <==> p in paths && (!HasFile(st, p) || p in env.denied)
    decreases |paths|
  {
    if paths == [] then []
    else
      var init := paths[..|paths| - 1];
      var p := paths[|paths| - 1];
      var rest := DeleteFailures(st, env, init);
      assert paths == init + [p];
      if HasFile(st, p) && p !in env.denied then rest else rest + [p]
  }

  /** On a selection without repeats (the only kind `Toggled` builds), the
      delete loop logs exactly the selected paths that had no file or that the
      device refused, in list order. */
  lemma {:induction false} DeleteLogsFailures(st: Store, env: Platform, paths: seq<string>)
    requires NoDuplicates(paths)
    ensures Run(Delete, st, env, paths).failed == DeleteFailures(st, env, paths)
    decreases |paths|
  {
    if paths != [] {
      var init := paths[..|paths| - 1];
      var p := paths[|paths| - 1];
      assert NoDuplicates(init);
      DeleteLogsFailures(st, env, init);
      DeleteRemovesExactly(st, env, init);
      var before := Run(Delete, st, env, init).store;
      forall q | q in init ensures q != p {
        var j :| 0 <= j < |init| && init[j] == q;
        assert paths[j] == q;
      }
      assert HasFile(before, p) <==> HasFile(st, p);
    }
  }

  /** The names a duplicate batch may write: the copy names of the selection. */
  function Targets(rename: string -> string, paths: seq<string>): set<string>
  {
    set p | p in paths :: rename(p)
  }

  /** The duplicate loop deletes nothing, adds only duplicate names, and
      leaves the text of every entry that is not a duplicate name, and when the
      device does not overwrite on copy, of every existing entry. */
  lemma {:induction false} DuplicateFrame(st: Store, env: Platform, rename: string -> string, paths: seq<string>)
    ensures var after := Run(Duplicate(rename), st, env, paths).store;
            && st.files.Keys <= after.files.Keys
            && after.files.Keys <= st.files.Keys + Targets(rename, paths)
            && (forall n :: n in st.files && n !in Targets(rename, paths) ==> after.files[n] == st.files[n])
            && (!env.copyOverwrites ==> forall n :: n in st.files ==> after.files[n] == st.files[n])
    decreases |paths|
  {
    if paths != [] {
      var init := paths[..|paths| - 1];
      var p := paths[|paths| - 1];
      DuplicateFrame(st, env, rename, init);
      NameOfPathOf(rename(p));
      assert Targets(rename, paths) == Targets(rename, init) + {rename(p)} by {
        assert paths == init + [p];
        forall n | n in Targets(rename, paths) ensures n in Targets(rename, init) + {rename(p)} {
          var q :| q in paths && rename(q) == n;
          if q != p {
            assert q in init;
          }
        }
        forall n | n in Targets(rename, init) ensures n in Targets(rename, paths) {
          var q :| q in init && rename(q) == n;
          assert q in paths;
        }
      }
    }
  }

  /** The selection in the common case: every path lies in the folder, no
      source is a copy target, the copy targets are pairwise different, free,
      and the device refuses nothing. Then every selected file that exists is
      duplicated with its text and exactly the missing ones are logged. */
  predicate CleanSelection(st: Store, env: Platform, rename: string -> string, paths: seq<string>)
  {
    && (forall i :: 0 <= i < |paths| ==> NameOf(paths[i]).Some?)
    && (forall i, j :: 0 <= i < |paths| && 0 <= j < |paths| ==> NameOf(paths[i]) != Some(rename(paths[j])))
    && (forall i, j :: 0 <= i < j < |paths| ==> rename(paths[i]) != rename(paths[j]))
    && (forall i :: 0 <= i < |paths| ==> rename(paths[i]) !in st.files)
    && (forall i :: 0 <= i < |paths| ==> paths[i] !in env.denied && PathOf(rename(paths[i])) !in env.denied)
  }

  /** The files of the clean selection that are missing, in list order. */
  function Missing(st: Store, paths: seq<string>): (r: seq<string>)
    ensures forall p :: p in r ==> p in paths && !HasFile(st, p)
    ensures forall p :: p in paths && !HasFile(st, p) ==> p in r
    decreases |paths|
  {
    if paths == [] then []
    else
      var rest := Missing(st, paths[..|paths| - 1]);
      assert forall q :: q in paths[..|paths| - 1] ==> q in paths;
      assert paths == paths[..|paths| - 1] + [paths[|paths| - 1]];
      if HasFile(st, paths[|paths| - 1]) then rest else rest + [paths[|paths| - 1]]
  }

  /** A name no path of the list is renamed to is not a copy target. */
  lemma NotTargeted(rename: string -> string, paths: seq<string>, n: string)
    requires forall j :: 0 <= j < |paths| ==> rename(paths[j]) != n
    ensures n !in Targets(rename, paths)
  {
    forall q | q in paths ensures rename(q) != n {
      var j :| 0 <= j < |paths| && paths[j] == q;
    }
  }

  /** A prefix of a clean selection is clean. */
  lemma CleanPrefix(st: Store, env: Platform, rename: string -> string, paths: seq<string>, k: nat)
    requires k <= |paths| && CleanSelection(st, env, rename, paths)
    ensures CleanSelection(st, env, rename, paths[..k])
  {
    assert forall j :: 0 <= j < k ==> paths[..k][j] == paths[j];
  }

  /** The last copy of a clean selection finds its source as the earlier
      copies left it, untouched, and its destination still free. */
  lemma CleanLastStep(st: Store, env: Platform, rename: string -> string, paths: seq<string>)
    requires paths != [] && CleanSelection(st, env, rename, paths)
    ensures var init := paths[..|paths| - 1];
            var p := paths[|paths| - 1];
            var prev := Run(Duplicate(rename), st, env, init).store;
            && (HasFile(prev, p) <==> HasFile(st, p))
            && (HasFile(st, p) ==> prev.files[NameOf(p).value] == st.files[NameOf(p).value])
            && NameOf(PathOf(rename(p))) == Some(rename(p))
            && rename(p) !in prev.files
  {
    var init := paths[..|paths| - 1];
    var last := |paths| - 1;
    var p := paths[last];
    DuplicateFrame(st, env, rename, init);
    NameOfPathOf(rename(p));
    forall j | 0 <= j < |init| ensures rename(init[j]) != NameOf(p).value && rename(init[j]) != rename(p) {
      assert init[j] == paths[j];
    }
    NotTargeted(rename, init, NameOf(p).value);
    NotTargeted(rename, init, rename(p));
  }

  /** Duplicating a clean selection logs exactly the selected files that are
      missing, in list order. */
  lemma {:induction false} DuplicateCleanLogsMissing(st: Store, env: Platform, rename: string -> string, paths: seq<string>)
    requires CleanSelection(st, env, rename, paths)
    ensures Run(Duplicate(rename), st, env, paths).failed == Missing(st, paths)
    decreases |paths|
  {
    if paths != [] {
      var init := paths[..|paths| - 1];
      CleanPrefix(st, env, rename, paths, |paths| - 1);
      CleanLastStep(st, env, rename, paths);
      DuplicateCleanLogsMissing(st, env, rename, init);
    }
  }

  /** Duplicating a clean selection keeps every existing file as it was. */
  lemma DuplicateCleanKeeps(st: Store, env: Platform, rename: string -> string, paths: seq<string>)
    requires CleanSelection(st, env, rename, paths)
    ensures var after := Run(Duplicate(rename), st, env, paths).store;
            forall n :: n in st.files ==> n in after.files && after.files[n] == st.files[n]
  {
    DuplicateFrame(st, env, rename, paths);
    forall n | n in st.files ensures n !in Targets(rename, paths) {
      NotTargeted(rename, paths, n);
    }
  }

  /** Duplicating a clean selection copies every selected file that exists,
      with the text it had. */
  lemma {:induction false} DuplicateCleanCopies(st: Store, env: Platform, rename: string -> string, paths: seq<string>)
    requires CleanSelection(st, env, rename, paths)
    ensures var after := Run(Duplicate(rename), st, env, paths).store;
            forall i :: 0 <= i < |paths| && HasFile(st, paths[i]) ==>
              rename(paths[i]) in after.files
              && after.files[rename(paths[i])] == st.files[NameOf(paths[i]).value]
    decreases |paths|
  {
    if paths != [] {
      var init := paths[..|paths| - 1];
      var p := paths[|paths| - 1];
      CleanPrefix(st, env, rename, paths, |paths| - 1);
      CleanLastStep(st, env, rename, paths);
      DuplicateCleanCopies(st, env, rename, init);
      var prev := Run(Duplicate(rename), st, env, init).store;
      var after := Run(Duplicate(rename), st, env, paths).store;
      assert after.files == if HasFile(st, p) then prev.files[rename(p) := st.files[NameOf(p).value]] else prev.files;
      forall i | 0 <= i < |init| && HasFile(st, paths[i])
        ensures rename(paths[i]) in after.files && after.files[rename(paths[i])] == st.files[NameOf(paths[i]).value]
      {
        assert paths[i] == init[i];
      }
    }
  }

  /** Duplicating a clean selection creates nothing for a missing file. */
  lemma {:induction false} DuplicateCleanSkipsMissing(st: Store, env: Platform, rename: string -> string, paths: seq<string>)
    requires CleanSelection(st, env, rename, paths)
    ensures var after := Run(Duplicate(rename), st, env, paths).store;
            forall i :: 0 <= i < |paths| && !HasFile(st, paths[i]) ==> rename(paths[i]) !in after.files
    decreases |paths|
  {
    if paths != [] {
      var init := paths[..|paths| - 1];
      var p := paths[|paths| - 1];
      CleanPrefix(st, env, rename, paths, |paths| - 1);
      CleanLastStep(st, env, rename, paths);
      DuplicateCleanSkipsMissing(st, env, rename, init);
      var prev := Run(Duplicate(rename), st, env, init).store;
      var after := Run(Duplicate(rename), st, env, paths).store;
      assert after.files == if HasFile(st, p) then prev.files[rename(p) := st.files[NameOf(p).value]] else prev.files;
      forall i | 0 <= i < |init| && !HasFile(st, paths[i]) ensures rename(paths[i]) !in after.files {
        assert paths[i] == init[i];
      }
    }
  }

  // ---------------------------------------------------------------------------
  // The screen

  /** The loop of `duplicarSelecionados`, with the name computation of its
      body passed as `rename`: each path is copied, in order, to the path of
      its new name, and a copy that throws is logged. */
  method CopyEach(fs: FileSystem, paths: seq<string>, rename: string -> string) returns (failed: seq<string>)
    modifies fs
    ensures Batch(fs.State(), failed) == Run(Duplicate(rename), old(fs.State()), fs.platform, paths)
  {
    failed := [];
    var i := 0;
    while i < |paths|
      invariant 0 <= i <= |paths|
      invariant Run(Duplicate(rename), old(fs.State()), fs.platform, paths[..i]) == Batch(fs.State(), failed)
    {
      RunStep(Duplicate(rename), old(fs.State()), fs.platform, paths, i);
      var novoPath := PathOf(rename(paths[i]));
      var o := fs.CopyFile(paths[i], novoPath);
      if o.Failed? {
        failed := failed + [paths[i]];
      }
      i := i + 1;
    }
    assert paths[..i] == paths;
  }

  /** What a tap on a list item does. */
  datatype TapResult = ToggledItem | OpenEditor(params: Editor.Params) | OpenFailed

  /** The browse screen's state. */
  class Browser {
    var entries: seq<Entry>
    var loading: bool
    var refreshing: bool
    var selecting: bool
    var selected: seq<string>

    /** The initial state, before the mount effect loads the listing. */
    constructor ()
      ensures entries == [] && loading && !refreshing
      ensures !selecting && selected == []
    {
      entries, loading, refreshing := [], true, false;
      selecting, selected := false, [];
    }

    /** `carregarArquivos`: a listing that fails keeps the old snapshot; both
        spinners stop either way. */
    method Load(fs: FileSystem)
      modifies this`entries, this`loading, this`refreshing
      ensures CanList(fs.State(), fs.platform) ==> Listing(fs.files, entries)
      ensures !CanList(fs.State(), fs.platform) ==> entries == old(entries)
      ensures !loading && !refreshing
    {
      var r := fs.ReadDir();
      if r.Ok? {
        entries := r.value;
      }
      loading, refreshing := false, false;
    }

    /** `onRefresh`: reload, then leave selection mode with an empty list. */
    method Refresh(fs: FileSystem)
      modifies this
      ensures CanList(fs.State(), fs.platform) ==> Listing(fs.files, entries)
      ensures !CanList(fs.State(), fs.platform) ==> entries == old(entries)
      ensures !loading && !refreshing
      ensures !selecting && selected == []
    {
      refreshing := true;
      Load(fs);
      selecting, selected := false, [];
    }

    /** `toggleSelecionar`. */
    method Toggle(path: string)
      modifies this`selected
      ensures selected == Toggled(old(selected), path)
    {
      selected := Toggled(selected, path);
    }

    /** `onLongPress`: selection mode on, and the pressed path toggled. */
    method LongPress(path: string)
      modifies this`selecting, this`selected
      ensures selecting && selected == Toggled(old(selected), path)
    {
      selecting := true;
      Toggle(path);
    }

    /** `onPress`: toggles in selection mode; otherwise reads the file and
        opens the editor on it, or reports that it cannot be opened. */
    method Tap(fs: FileSystem, item: Entry) returns (t: TapResult)
      modifies this`selected
      ensures selecting ==> t == ToggledItem && selected == Toggled(old(selected), item.path)
      ensures !selecting ==> selected == old(selected)
      ensures !selecting ==>
                t == match ReadStep(fs.State(), fs.platform, item.path)
                     case Ok(text) => OpenEditor(Editor.Params(Some(item.name), Some(text)))
                     case Err(_) => OpenFailed
    {
      if selecting {
        Toggle(item.path);
        t := ToggledItem;
      } else {
        var r := fs.ReadFile(item.path);
        match r
        case Ok(text) => t := OpenEditor(Editor.Params(Some(item.name), Some(text)));
        case Err(_) => t := OpenFailed;
      }
    }

    /** The cancel button: only selection mode is turned off. */
    method Cancel()
      modifies this`selecting
      ensures !selecting && selected == old(selected)
    {
      selecting := false;
    }

    /** `deletarSelecionados`, confirmed or not in the dialog. The confirmed
        branch unlinks every selected path in order, clears the selection and
        reloads. */
    method DeleteSelected(fs: FileSystem, confirmed: bool) returns (failed: seq<string>)
      modifies this, fs
      ensures !confirmed ==> failed == [] && fs.State() == old(fs.State())
      ensures !confirmed ==>
                && entries == old(entries) && selecting == old(selecting) && selected == old(selected)
                && loading == old(loading) && refreshing == old(refreshing)
      ensures confirmed ==>
                && Batch(fs.State(), failed) == Run(Delete, old(fs.State()), fs.platform, old(selected))
                && !selecting && selected == [] && !loading && !refreshing
                && (CanList(fs.State(), fs.platform) ==> Listing(fs.files, entries))
                && (!CanList(fs.State(), fs.platform) ==> entries == old(entries))
    {
      failed := [];
      if !confirmed {
        return;
      }
      var paths := selected;
      ghost var start := fs.State();
      var i := 0;
      while i < |paths|
        invariant 0 <= i <= |paths|
        invariant Run(Delete, start, fs.platform, paths[..i]) == Batch(fs.State(), failed)
        invariant entries == old(entries)
      {
        assert paths[..i + 1][..i] == paths[..i];
        var o := fs.Unlink(paths[i]);
        if o.Failed? {
          failed := failed + [paths[i]];
        }
        i := i + 1;
      }
      assert paths[..i] == paths;
      selecting, selected := false, [];
      Load(fs);
    }

    /** `duplicarSelecionados`: copies every selected path, in order, to its
        duplicate name, then clears the selection and reloads. */
    method DuplicateSelected(fs: FileSystem) returns (failed: seq<string>)
      modifies this, fs
      ensures Batch(fs.State(), failed) == Run(Duplicate(DupName), old(fs.State()), fs.platform, old(selected))
      ensures !selecting && selected == [] && !loading && !refreshing
      ensures CanList(fs.State(), fs.platform) ==> Listing(fs.files, entries)
      ensures !CanList(fs.State(), fs.platform) ==> entries == old(entries)
    {
      failed := CopyEach(fs, selected, DupName);
      selecting, selected := false, [];
      Load(fs);
    }
  }
}
