/** The editor screen (screens/EditScreen.tsx): one open document, its save
    transition, the back-press guard and the tab key. */
module Editor {
  import opened Storage

  /** The route parameters the editor is opened with; both may be absent. */
  datatype Params = Params(nomeArquivo: Option<string>, conteudo: Option<string>)

  /** The text input's selection, as character offsets. */
  datatype Selection = Selection(start: nat, end: nat)

  /** A buffer together with its selection. */
  datatype Edit = Edit(content: string, selection: Selection)

  const DefaultExtension: string := ".txt"

  /** `x || ''` for an optional string. */
  function OrEmpty(o: Option<string>): (r: string)
    ensures o.Some? ==> r == o.value
    ensures o.None? ==> r == ""
  {
    match o
    case Some(s) => s
    case None => ""
  }

  /** The name written to disk: the name itself when it has a dot, otherwise
      the name with `.txt` appended. */
  function Effective(name: string): (r: string)
    ensures '.' in r
    ensures name <= r
    ensures r == name <==> '.' in name
    ensures '.' !in name ==> r == name + DefaultExtension
  {
    if '.' in name then name
    else
      var r := name + DefaultExtension;
      assert r[|name|] == '.';
      r
  }

  /** Applying the default-extension rule a second time changes nothing. */
  lemma EffectiveIdempotent(name: string)
    ensures Effective(Effective(name)) == Effective(name)
  {
  }

  /** The back press is intercepted (the discard dialog is shown). */
  predicate Intercepts(isSaved: bool, fileName: string, content: string)
    ensures isSaved ==> !Intercepts(isSaved, fileName, content)
    ensures fileName == "" && content == "" ==> !Intercepts(isSaved, fileName, content)
  {
    !isSaved && (fileName != "" || content != "")
  }

  /** A save with these names deletes the original file first, if it exists.
      The comparison is on the raw names as typed, not on the effective ones. */
  predicate RemovesOriginal(fileName: string, originalFileName: string)
    ensures originalFileName == "" ==> !RemovesOriginal(fileName, originalFileName)
    ensures originalFileName == fileName ==> !RemovesOriginal(fileName, originalFileName)
  {
    originalFileName != "" && originalFileName != fileName
  }

  /** The save succeeds exactly when this holds. */
  predicate SaveSucceeds(fileName: string, originalFileName: string, st: Store, env: Platform)
    ensures SaveSucceeds(fileName, originalFileName, st, env) ==>
              fileName != "" && PathOf(Effective(fileName)) !in env.denied + env.writeDenied
  {
    var original := PathOf(Effective(originalFileName));
    && fileName != ""
    && (st.folderExists || Folder !in env.denied)
    && (RemovesOriginal(fileName, originalFileName) && HasFile(st, original) ==> original !in env.denied)
    && PathOf(Effective(fileName)) !in env.denied
    && PathOf(Effective(fileName)) !in env.writeDenied
  }

  /** `handleSave` over the store: reject an empty name, create the folder when
      missing, delete the original file when the raw name changed and it
      exists, then write the buffer under the effective name. Each storage step
      that fails ends the save with the store as that step left it. */
  function Save(fileName: string, originalFileName: string, content: string, st: Store, env: Platform): (r: Step)
    ensures fileName == "" ==> r == Step(Failed(ValidationError), st)
    ensures r.outcome.Done? <==> SaveSucceeds(fileName, originalFileName, st, env)
    ensures r.outcome.Done? ==>
              && r.store.folderExists
              && Effective(fileName) in r.store.files
              && r.store.files[Effective(fileName)] == content
    ensures (r.outcome.Done? && RemovesOriginal(fileName, originalFileName)
             && Effective(originalFileName) != Effective(fileName))
            ==> Effective(originalFileName) !in r.store.files
    ensures !RemovesOriginal(fileName, originalFileName) ==> st.files.Keys <= r.store.files.Keys
    ensures forall n :: n != Effective(originalFileName) && n != Effective(fileName) ==>
              && (n in r.store.files <==> n in st.files)
              && (n in st.files ==> r.store.files[n] == st.files[n])
    ensures r.outcome.Failed? ==>
              || r.store.files == st.files
              || (RemovesOriginal(fileName, originalFileName)
                  && r.store.files == st.files - {Effective(originalFileName)})
    ensures Consistent(st) ==> Consistent(r.store)
  {
    if fileName == "" then Step(Failed(ValidationError), st)
    else
      var path := PathOf(Effective(fileName));
      var original := PathOf(Effective(originalFileName));
      NameOfPathOf(Effective(fileName));
      NameOfPathOf(Effective(originalFileName));
      var made := if PathExists(st, Folder) then Step(Done, st) else MkdirStep(st, env);
      if made.outcome.Failed? then made
      else
        var cleared :=
          if RemovesOriginal(fileName, originalFileName) && PathExists(made.store, original)
          then UnlinkStep(made.store, env, original)
          else made;
        if cleared.outcome.Failed? then cleared
        else WriteStep(cleared.store, env, path, content)
  }

  /** Saving again with the same name and buffer leaves the store as the first
      save left it: `originalFileName` never changes, so the second save
      repeats the first. */
  lemma SaveTwiceIsSaveOnce(fileName: string, originalFileName: string, content: string, st: Store, env: Platform)
    requires Save(fileName, originalFileName, content, st, env).outcome.Done?
    ensures var once := Save(fileName, originalFileName, content, st, env);
            Save(fileName, originalFileName, content, once.store, env) == once
  {
    var once := Save(fileName, originalFileName, content, st, env);
    var name, original := Effective(fileName), Effective(originalFileName);
    NameOfPathOf(name);
    NameOfPathOf(original);
    var twice := Save(fileName, originalFileName, content, once.store, env);
    assert SaveSucceeds(fileName, originalFileName, once.store, env);
    if RemovesOriginal(fileName, originalFileName) && original == name {
      assert twice.store.files == (once.store.files - {original})[name := content];
    }
    assert twice.store.files == once.store.files;
  }

  /** The second save need not face the first one's device: whatever the
      platform, a second save with the same name and buffer that succeeds
      leaves the store as the first save left it. */
  lemma SaveAgainKeepsStore(fileName: string, originalFileName: string, content: string, st: Store, env: Platform, env2: Platform)
    requires Save(fileName, originalFileName, content, st, env).outcome.Done?
    requires Save(fileName, originalFileName, content, Save(fileName, originalFileName, content, st, env).store, env2).outcome.Done?
    ensures var once := Save(fileName, originalFileName, content, st, env);
            Save(fileName, originalFileName, content, once.store, env2).store == once.store
  {
    var once := Save(fileName, originalFileName, content, st, env);
    var name, original := Effective(fileName), Effective(originalFileName);
    NameOfPathOf(name);
    NameOfPathOf(original);
    var twice := Save(fileName, originalFileName, content, once.store, env2);
    if RemovesOriginal(fileName, originalFileName) && original == name {
      assert twice.store.files == (once.store.files - {original})[name := content];
    }
    assert twice.store.files == once.store.files;
  }

  /** A write that fails after the original was deleted is not undone: the
      renamed document is then in neither file. This includes the case where
      both effective names are the same file, as for "note" saved as
      "note.txt". */
  lemma FailedWriteKeepsDeletion(fileName: string, originalFileName: string, content: string, st: Store, env: Platform)
    requires fileName != "" && RemovesOriginal(fileName, originalFileName)
    requires st.folderExists && HasFile(st, PathOf(Effective(originalFileName)))
    requires PathOf(Effective(originalFileName)) !in env.denied
    requires PathOf(Effective(fileName)) in env.denied + env.writeDenied
    ensures var r := Save(fileName, originalFileName, content, st, env);
            && r.outcome == Failed(StorageUnavailable)
            && r.store.files == st.files - {Effective(originalFileName)}
  {
    NameOfPathOf(Effective(originalFileName));
    NameOfPathOf(Effective(fileName));
  }

  /** Saving "note" as "note.txt": the raw names differ, so `note.txt` itself
      is unlinked first; a write that then fails loses the file. */
  lemma RenameOntoItselfLosesFile(text: string, st: Store, env: Platform)
    requires st.folderExists && "note.txt" in st.files
    requires PathOf("note.txt") !in env.denied && PathOf("note.txt") in env.writeDenied
    ensures Save("note.txt", "note", text, st, env) == Step(Failed(StorageUnavailable), st.(files := st.files - {"note.txt"}))
  {
    assert '.' !in "note";
    assert "note.txt"[4] == '.';
    assert Effective("note") == "note.txt" && Effective("note.txt") == "note.txt";
    NameOfPathOf("note.txt");
  }

  /** Opening a dot-less "note" and saving it as "x": the original path is
      built from the effective name, so an unrelated `note.txt` is deleted and
      the opened "note" survives next to the new `x.txt`. */
  lemma DotlessOriginalSurvives(text: string, st: Store, env: Platform)
    requires st.folderExists && "note" in st.files && "note.txt" in st.files
    requires PathOf("note.txt") !in env.denied
    requires PathOf("x.txt") !in env.denied + env.writeDenied
    ensures var r := Save("x", "note", text, st, env);
            && r.outcome == Done
            && r.store.files == (st.files - {"note.txt"})["x.txt" := text]
            && r.store.files["note"] == st.files["note"]
  {
    assert '.' !in "note" && '.' !in "x";
    assert Effective("note") == "note.txt" && Effective("x") == "x.txt";
    NameOfPathOf("note.txt");
    NameOfPathOf("x.txt");
  }

  /** JavaScript's clamping of a non-negative slice index. */
  function Clamp(i: nat, s: string): (k: nat)
    ensures k <= |s| && (i <= |s| ==> k == i)
    ensures |s| < i ==> k == |s|
  {
    if i <= |s| then i else |s|
  }

  /** `handleTabPress`: the selected range is replaced by a tab and the
      selection collapses just after it. */
  function TabInsert(content: string, sel: Selection): (e: Edit)
    ensures e.selection == Selection(sel.start + 1, sel.start + 1)
    ensures '\t' in e.content
    ensures sel.start <= sel.end <= |content| ==>
              && |e.content| == |content| - (sel.end - sel.start) + 1
              && e.content[..sel.start] == content[..sel.start]
              && e.content[sel.start] == '\t'
              && e.content[sel.start + 1..] == content[sel.end..]
  {
    var before := content[..Clamp(sel.start, content)];
    var after := content[Clamp(sel.end, content)..];
    var text := before + "\t" + after;
    assert text[|before|] == '\t';
    Edit(text, Selection(sel.start + 1, sel.start + 1))
  }

  /** Pressing tab on "ab" with the cursor after "a". */
  lemma TabInsertExample()
    ensures TabInsert("ab", Selection(1, 1)) == Edit("a\tb", Selection(2, 2))
  {
    assert "ab"[..1] == "a" && "ab"[1..] == "b";
  }

  /** One open editor screen. `originalFileName` has no setter, and no handler
      other than a successful save touches `isSaved`. */
  class Session {
    var fileName: string
    const originalFileName: string
    var content: string
    var isSaved: bool
    var selection: Selection

    /** The initial state: a document opened with a name counts as saved. */
    constructor (params: Params)
      ensures fileName == OrEmpty(params.nomeArquivo) && originalFileName == fileName
      ensures content == OrEmpty(params.conteudo)
      ensures isSaved <==> fileName != ""
      ensures selection == Selection(0, 0)
    {
      fileName := OrEmpty(params.nomeArquivo);
      originalFileName := OrEmpty(params.nomeArquivo);
      content := OrEmpty(params.conteudo);
      isSaved := params.nomeArquivo.Some? && params.nomeArquivo.value != "";
      selection := Selection(0, 0);
    }

    /** `onBackPress`: true when the back press is intercepted. */
    method OnBackPress() returns (intercepted: bool)
      ensures intercepted <==> !isSaved && (fileName != "" || content != "")
    {
      intercepted := Intercepts(isSaved, fileName, content);
    }

    /** The name field's `onChangeText`; `isSaved` is left as it was. */
    method ChangeFileName(name: string)
      modifies this`fileName
      ensures fileName == name
    {
      fileName := name;
    }

    /** The text area's `onChangeText`; `isSaved` is left as it was. */
    method ChangeContent(text: string)
      modifies this`content
      ensures content == text
    {
      content := text;
    }

    /** `handleSelectionChange`. */
    method ChangeSelection(sel: Selection)
      modifies this`selection
      ensures selection == sel
    {
      selection := sel;
    }

    /** `handleTabPress`; `isSaved` is left as it was. */
    method HandleTabPress()
      modifies this`content, this`selection
      ensures Edit(content, selection) == TabInsert(old(content), old(selection))
    {
      var e := TabInsert(content, selection);
      content, selection := e.content, e.selection;
    }

    /** `handleSave`: the storage calls in the source's order, then `isSaved`
        is set when the write succeeded. */
    method HandleSave(fs: FileSystem) returns (r: Outcome)
      modifies this`isSaved, fs
      ensures Step(r, fs.State()) == Save(fileName, originalFileName, content, old(fs.State()), fs.platform)
      ensures isSaved == (old(isSaved) || r.Done?)
    {
      if fileName == "" {
        return Failed(ValidationError);
      }
      var path := PathOf(Effective(fileName));
      var original := PathOf(Effective(originalFileName));
      var folder := fs.Exists(Folder);
      if !folder {
        r := fs.Mkdir();
        if r.Failed? {
          return;
        }
      }
      if originalFileName != "" && originalFileName != fileName {
        var there := fs.Exists(original);
        if there {
          r := fs.Unlink(original);
          if r.Failed? {
            return;
          }
        }
      }
      r := fs.WriteFile(path, content);
      if r.Done? {
        isSaved := true;
      }
    }
  }

  /** A file opened from the list counts as saved, and editing it does not
      reset that: the back press then leaves without asking. */
  method OpenEditBack(name: string, text: string, typed: string) returns (intercepted: bool)
    requires name != ""
    ensures !intercepted
  {
    var s := new Session(Params(Some(name), Some(text)));
    s.ChangeContent(typed);
    intercepted := s.OnBackPress();
  }
}
