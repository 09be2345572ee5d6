/**
 * The mutable session state of the `App` component (src/App.tsx): the open
 * tabs in tab-bar order, the active tab's id, the theme flag with its stored
 * copy, and the id counter. Each handler is one atomic transition; the
 * outcome of every file read is an input.
 */
module TabSession {
  import opened Wrappers
  import opened TabList
  import Seqs
  import FilePaths
  import Theme

  class Session {
    var tabs: seq<Tab>
    var activeTabId: Option<TabId>
    var isDarkMode: bool
    /** The value under the `theme` storage key (and the body's `data-theme` attribute). */
    var storedTheme: string
    var tabIdCounter: nat

    /** The tab invariant of `Consistent`, and the stored theme is the in-memory flag's. */
    ghost predicate Valid()
      reads this
    {
      Consistent(tabs, activeTabId, tabIdCounter)
      && storedTheme == Theme.SaveTheme(isDarkMode)
    }

    /** Mounting: no tabs, nothing active, the theme loaded from `saved` and written straight back. */
    constructor (saved: Option<string>)
      ensures Valid()
      ensures tabs == [] && activeTabId == None && tabIdCounter == 0
      ensures isDarkMode == Theme.LoadTheme(saved)
    {
      tabs := [];
      activeTabId := None;
      isDarkMode := Theme.LoadTheme(saved);
      storedTheme := Theme.SaveTheme(Theme.LoadTheme(saved));
      tabIdCounter := 0;
    }

    /** The theme button: flip the flag; the effect then stores the new value. */
    method ToggleTheme()
      requires Valid()
      modifies this`isDarkMode, this`storedTheme
      ensures Valid()
      ensures isDarkMode == !old(isDarkMode)
      ensures Theme.LoadTheme(Some(storedTheme)) == isDarkMode
    {
      isDarkMode := !isDarkMode;
      storedTheme := Theme.SaveTheme(isDarkMode);
    }

    /** Clicking a tab in the tab bar activates it. */
    method SelectTab(id: TabId)
      requires Valid() && HasTab(tabs, id)
      modifies this`activeTabId
      ensures Valid()
      ensures activeTabId == Some(id)
    {
      var t :| t in tabs && t.id == id;
      var i :| 0 <= i < |tabs| && tabs[i] == t;
      ActivateKeepsConsistent(tabs, activeTabId, tabIdCounter, i);
      activeTabId := Some(id);
    }

    /**
     * `openFileByPath`: an open path activates its first tab without reading;
     * otherwise a successful read appends one tab under the next id and
     * activates it, and a failed read changes nothing.
     */
    method OpenFileByPath(filePath: string, read: Option<string>)
      requires Valid()
      modifies this`tabs, this`activeTabId, this`tabIdCounter
      ensures Valid()
      ensures 0 <= FirstWithPathIn(old(tabs), {filePath}) ==>
        tabs == old(tabs) && tabIdCounter == old(tabIdCounter)
        && activeTabId == Some(old(tabs)[FirstWithPathIn(old(tabs), {filePath})].id)
      ensures FirstWithPathIn(old(tabs), {filePath}) < 0 && read.None? ==>
        tabs == old(tabs) && activeTabId == old(activeTabId) && tabIdCounter == old(tabIdCounter)
      ensures FirstWithPathIn(old(tabs), {filePath}) < 0 && read.Some? ==>
        tabIdCounter == old(tabIdCounter) + 1
        && tabs == old(tabs) + [NewTab(tabIdCounter, filePath, read.value)]
        && activeTabId == Some(tabIdCounter)
    {
      var existing := FirstWithPathIn(tabs, {filePath});
      if 0 <= existing {
        ActivateKeepsConsistent(tabs, activeTabId, tabIdCounter, existing);
        activeTabId := Some(tabs[existing].id);
        return;
      }
      match read
      case None =>
      case Some(content) =>
        AppendOneKeepsConsistent(tabs, activeTabId, tabIdCounter, filePath, content);
        tabIdCounter := tabIdCounter + 1;
        var newTab := NewTab(tabIdCounter, filePath, content);
        tabs := tabs + [newTab];
        activeTabId := Some(newTab.id);
    }

    /**
     * `closeTab`: remove the tab, keeping the others in order. Closing the
     * active tab activates `newTabs[max(0, i - 1)]` for its old index `i`, or
     * nothing when no tab is left; closing another tab leaves the active one.
     */
    method CloseTab(tabId: TabId)
      requires Valid()
      modifies this`tabs, this`activeTabId
      ensures Valid()
      ensures IndexOfId(old(tabs), tabId) < 0 ==> tabs == old(tabs) && activeTabId == old(activeTabId)
      ensures 0 <= IndexOfId(old(tabs), tabId) ==>
        tabs == old(tabs)[..IndexOfId(old(tabs), tabId)] + old(tabs)[IndexOfId(old(tabs), tabId) + 1..]
      ensures old(activeTabId) != Some(tabId) ==> activeTabId == old(activeTabId)
      ensures old(activeTabId) == Some(tabId) && tabs != [] ==>
        activeTabId == Some(tabs[Max(0, IndexOfId(old(tabs), tabId) - 1)].id)
      ensures tabs == [] ==> activeTabId == None
    {
      var current, active := tabs, activeTabId;
      CloseKeepsConsistent(current, active, tabIdCounter, tabId);
      WithoutIdResult(current, tabId);
      var newTabs := WithoutId(current, tabId);
      tabs := newTabs;

      if active == Some(tabId) {
        if |newTabs| > 0 {
          var closedIndex := IndexOfId(current, tabId);
          var newActiveTab := newTabs[Max(0, closedIndex - 1)];
          activeTabId := Some(newActiveTab.id);
        } else {
          activeTabId := None;
        }
      }
    }

    /**
     * The per-file loop of the drop handler (`markdownFiles.map`): each
     * successful read advances the counter and yields a tab under its new
     * value; a failed read yields nothing.
     */
    method LoadFiles(files: seq<string>, outcomes: seq<Option<string>>) returns (loaded: seq<Tab>)
      requires |files| == |outcomes|
      modifies this`tabIdCounter
      ensures loaded == LoadTabs(files, outcomes, old(tabIdCounter))
      ensures tabIdCounter == old(tabIdCounter) + |loaded|
    {
      loaded := [];
      var k := 0;
      while k < |files|
        invariant 0 <= k <= |files|
        invariant loaded == LoadTabs(files[..k], outcomes[..k], old(tabIdCounter))
        invariant tabIdCounter == old(tabIdCounter) + |loaded|
      {
        assert files[..k + 1][..k] == files[..k] && outcomes[..k + 1][..k] == outcomes[..k];
        match outcomes[k] {
          case None =>
          case Some(content) =>
            tabIdCounter := tabIdCounter + 1;
            loaded := loaded + [NewTab(tabIdCounter, files[k], content)];
        }
        k := k + 1;
      }
      assert files[..k] == files && outcomes[..k] == outcomes;
    }

    /**
     * The `setTabs` updater of the drop handler: the loaded tabs whose path
     * was not open are appended and the first of them activated; when there
     * are none, the first open tab in tab-bar order whose path was loaded is
     * activated, or, without one, nothing changes.
     */
    method MergeLoaded(loaded: seq<Tab>, ghost files: seq<string>, ghost outcomes: seq<Option<string>>, ghost counter: nat)
      requires |files| == |outcomes| && loaded == LoadTabs(files, outcomes, counter)
      requires Consistent(tabs, activeTabId, counter) && tabIdCounter == counter + |loaded|
      requires storedTheme == Theme.SaveTheme(isDarkMode)
      modifies this`tabs, this`activeTabId
      ensures Valid()
      ensures UniqueNewTabs(old(tabs), loaded) != [] ==>
        tabs == old(tabs) + UniqueNewTabs(old(tabs), loaded)
        && activeTabId == Some(UniqueNewTabs(old(tabs), loaded)[0].id)
      ensures UniqueNewTabs(old(tabs), loaded) == [] ==> tabs == old(tabs)
      ensures UniqueNewTabs(old(tabs), loaded) == [] && 0 <= FirstWithPathIn(old(tabs), PathSet(loaded)) ==>
        activeTabId == Some(old(tabs)[FirstWithPathIn(old(tabs), PathSet(loaded))].id)
      ensures UniqueNewTabs(old(tabs), loaded) == [] && FirstWithPathIn(old(tabs), PathSet(loaded)) < 0 ==>
        activeTabId == old(activeTabId)
    {
      DropKeepsConsistent(tabs, activeTabId, counter, files, outcomes);
      var newTabs := UniqueNewTabs(tabs, loaded);
      if |newTabs| == 0 {
        var firstExisting := FirstWithPathIn(tabs, PathSet(loaded));
        if 0 <= firstExisting {
          activeTabId := Some(tabs[firstExisting].id);
        }
      } else {
        activeTabId := Some(newTabs[0].id);
        tabs := tabs + newTabs;
      }
    }

    /**
     * The `tauri://drag-drop` handler. `outcomes[k]` is the result of reading
     * the k-th accepted file. An empty file list returns at once; otherwise
     * the files are loaded and merged.
     */
    method Drop(payload: FilePaths.Payload, outcomes: seq<Option<string>>)
      requires Valid()
      requires |outcomes| == |FilePaths.DroppedFiles(payload)|
      modifies this`tabs, this`activeTabId, this`tabIdCounter
      ensures Valid()
      ensures FilePaths.DroppedFiles(payload) == [] ==>
        tabs == old(tabs) && activeTabId == old(activeTabId) && tabIdCounter == old(tabIdCounter)
      ensures FilePaths.DroppedFiles(payload) != [] ==>
        var loaded := LoadTabs(FilePaths.DroppedFiles(payload), outcomes, old(tabIdCounter));
        var newTabs := UniqueNewTabs(old(tabs), loaded);
        var first := FirstWithPathIn(old(tabs), PathSet(loaded));
        tabIdCounter == old(tabIdCounter) + |loaded|
        && (newTabs != [] ==> tabs == old(tabs) + newTabs && activeTabId == Some(newTabs[0].id))
        && (newTabs == [] ==> tabs == old(tabs))
        && (newTabs == [] && 0 <= first ==> activeTabId == Some(old(tabs)[first].id))
        && (newTabs == [] && first < 0 ==> activeTabId == old(activeTabId))
    {
      var files := FilePaths.DroppedFiles(payload);
      if |files| == 0 {
        return;
      }
      ghost var counter := tabIdCounter;
      var loaded := LoadFiles(files, outcomes);
      MergeLoaded(loaded, files, outcomes, counter);
    }
  }

  /** The files of the example drop: `c.png` is filtered out, the duplicate kept. */
  lemma DroppedExampleFiles()
    ensures FilePaths.DroppedFiles(FilePaths.ArrayPayload(["a.md", "a.md", "b.txt", "c.png"])) == ["a.md", "a.md", "b.txt"]
  {
    var dropped: seq<string> := ["a.md", "a.md", "b.txt", "c.png"];
    assert dropped == ["a.md"] + (["a.md"] + (["b.txt"] + ["c.png"]));
    assert FilePaths.IsMarkdownPath("a.md") && FilePaths.IsMarkdownPath("b.txt");
    assert !FilePaths.IsMarkdownPath("c.png");
    FilePaths.MarkdownPathsConcat(["a.md"], ["a.md"] + (["b.txt"] + ["c.png"]));
    FilePaths.MarkdownPathsConcat(["a.md"], ["b.txt"] + ["c.png"]);
    FilePaths.MarkdownPathsConcat(["b.txt"], ["c.png"]);
    assert FilePaths.MarkdownPaths(["c.png"]) == [];
    assert FilePaths.MarkdownPaths(["a.md"]) == ["a.md"];
    assert FilePaths.MarkdownPaths(["b.txt"]) == ["b.txt"];
  }

  /** Loading the example files into an empty session yields three new tabs, numbered 1 to 3. */
  lemma LoadedExampleTabs(outcomes: seq<Option<string>>)
    requires |outcomes| == 3 && outcomes[0].Some? && outcomes[1].Some? && outcomes[2].Some?
    ensures var loaded := LoadTabs(["a.md", "a.md", "b.txt"], outcomes, 0);
      UniqueNewTabs([], loaded) == loaded
      && loaded == [NewTab(1, "a.md", outcomes[0].value), NewTab(2, "a.md", outcomes[1].value),
                    NewTab(3, "b.txt", outcomes[2].value)]
  {
    var files: seq<string> := ["a.md", "a.md", "b.txt"];
    assert files == [files[0]] + ([files[1]] + [files[2]]);
    assert outcomes == [outcomes[0]] + ([outcomes[1]] + [outcomes[2]]);
    LoadOne(files[0], outcomes[0], 0);
    LoadOne(files[1], outcomes[1], 1);
    LoadOne(files[2], outcomes[2], 2);
    LoadTabsAppend([files[1]], [outcomes[1]], [files[2]], [outcomes[2]], 1);
    LoadTabsAppend([files[0]], [outcomes[0]], [files[1]] + [files[2]], [outcomes[1]] + [outcomes[2]], 0);
    var loaded := LoadTabs(files, outcomes, 0);
    assert PathSet([]) == {};
    Seqs.FilterKeepsAll(loaded, NotOpen({}));
  }

  /** Toggling the theme twice restores both the flag and the stored value. */
  method ToggleThemeTwice(session: Session)
    requires session.Valid()
    modifies session`isDarkMode, session`storedTheme
    ensures session.Valid()
    ensures session.isDarkMode == old(session.isDarkMode) && session.storedTheme == old(session.storedTheme)
  {
    session.ToggleTheme();
    session.ToggleTheme();
  }

  /**
   * Dropping `a.md`, `a.md`, `b.txt` and `c.png` on a fresh session with
   * every read succeeding: `c.png` is ignored, and since deduplication is only
   * against tabs already open, `a.md` gets two tabs. The first is active.
   */
  method DropBatchWithDuplicatePath() returns (tabs: seq<Tab>, active: Option<TabId>)
    ensures |tabs| == 3 && active == Some(tabs[0].id)
    ensures tabs[0].filePath == "a.md" && tabs[1].filePath == "a.md" && tabs[2].filePath == "b.txt"
    ensures tabs[0].id != tabs[1].id
  {
    var session := new Session(None);
    var payload := FilePaths.ArrayPayload(["a.md", "a.md", "b.txt", "c.png"]);
    var outcomes := [Some("# A"), Some("# A"), Some("B")];
    DroppedExampleFiles();
    LoadedExampleTabs(outcomes);
    session.Drop(payload, outcomes);
    tabs, active := session.tabs, session.activeTabId;
  }
}
