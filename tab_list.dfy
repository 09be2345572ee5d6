/**
 * The tab record and the list computations of the session (src/App.tsx):
 * building the tabs of a drop batch, choosing which of them are new,
 * finding the tab to activate, and removing a closed tab. Tab ids are the
 * values of the session's id counter.
 */
module TabList {
  import opened Wrappers
  import Seqs
  import FilePaths

  type TabId = nat

  datatype Tab = Tab(id: TabId, filePath: string, fileName: string, content: string)

  /** No two tabs carry the same id. */
  predicate IdsDistinct(tabs: seq<Tab>)
  {
    forall i, j :: 0 <= i < j < |tabs| ==> tabs[i].id != tabs[j].id
  }

  /** Some tab carries `id`. */
  predicate HasTab(tabs: seq<Tab>, id: TabId)
  {
    exists t :: t in tabs && t.id == id
  }

  /** `new Set(tabs.map(t => t.filePath))`. */
  function PathSet(tabs: seq<Tab>): set<string>
  {
    set t | t in tabs :: t.filePath
  }

  /** The tab a successful read of `path` produces under id `id`. */
  function NewTab(id: TabId, path: string, content: string): (t: Tab)
    ensures t.id == id && t.filePath == path && t.content == content
    ensures t.fileName == FilePaths.FileName(path)
  {
    Tab(id, path, FilePaths.FileName(path), content)
  }

  /** The tab, if any, that reading `path` adds under the next id `id`. */
  function LoadStep(id: TabId, path: string, read: Option<string>): seq<Tab>
  {
    if read.Some? then [NewTab(id, path, read.value)] else []
  }

  /**
   * `validTabs` of a drop batch: one tab per successful read, in drop-list
   * order, the counter advancing once per success, so the ids are the
   * consecutive values after `counter`. `outcomes[k]` is the outcome of reading
   * `files[k]`.
   */
  function LoadTabs(files: seq<string>, outcomes: seq<Option<string>>, counter: nat): (loaded: seq<Tab>)
    requires |files| == |outcomes|
    ensures |loaded| <= |files|
    decreases |files|
  {
    if files == [] then []
    else
      var n := |files| - 1;
      var before := LoadTabs(files[..n], outcomes[..n], counter);
      match outcomes[n]
      case None => before
      case Some(content) => before + [NewTab(counter + |before| + 1, files[n], content)]
  }

  /**
   * The loaded tabs are numbered `counter + 1`, `counter + 2`, ... in order,
   * each for a dropped file and named after it.
   */
  lemma {:induction false} LoadTabsIds(files: seq<string>, outcomes: seq<Option<string>>, counter: nat)
    requires |files| == |outcomes|
    ensures forall k :: 0 <= k < |LoadTabs(files, outcomes, counter)| ==>
      var t := LoadTabs(files, outcomes, counter)[k];
      t.id == counter + k + 1 && t.filePath in files && t.fileName == FilePaths.FileName(t.filePath)
    decreases |files|
  {
    if files != [] {
      var n := |files| - 1;
      var before := LoadTabs(files[..n], outcomes[..n], counter);
      var loaded := LoadTabs(files, outcomes, counter);
      LoadTabsIds(files[..n], outcomes[..n], counter);
      assert forall k :: 0 <= k < |before| ==> before[k].id == counter + k + 1;
      assert forall k :: 0 <= k < |before| ==> before[k].filePath in files[..n];
      assert forall k :: 0 <= k < |before| ==> before[k].fileName == FilePaths.FileName(before[k].filePath);
      forall k | 0 <= k < |loaded|
        ensures loaded[k].id == counter + k + 1 && loaded[k].filePath in files
        ensures loaded[k].fileName == FilePaths.FileName(loaded[k].filePath)
      {
        if k < |before| {
          assert loaded[k] == before[k];
        } else {
          assert loaded[k] == NewTab(counter + |before| + 1, files[n], outcomes[n].value);
        }
      }
    }
  }

  /** Loading one more file after a batch: its tab, if read, comes last under the next id. */
  lemma LoadTabsSnoc(files: seq<string>, outcomes: seq<Option<string>>, path: string, read: Option<string>, counter: nat)
    requires |files| == |outcomes|
    ensures LoadTabs(files + [path], outcomes + [read], counter)
         == LoadTabs(files, outcomes, counter) + LoadStep(counter + |LoadTabs(files, outcomes, counter)| + 1, path, read)
  {
    var f, r := files + [path], outcomes + [read];
    assert f[..|files|] == files && r[..|outcomes|] == outcomes;
    assert f[|files|] == path && r[|files|] == read;
    var before := LoadTabs(files, outcomes, counter);
    match read {
      case None =>
        assert LoadTabs(f, r, counter) == before;
      case Some(content) =>
        assert LoadTabs(f, r, counter) == before + [NewTab(counter + |before| + 1, path, content)];
    }
  }

  /**
   * Loading is compositional: the batch `f1 + f2` loads the tabs of `f1`
   * followed by those of `f2`, numbered on from where `f1` left the counter.
   * Together with the one-file cases this says the loaded tabs are exactly the
   * successful reads in drop-list order, a failure dropping only its own file.
   */
  lemma {:induction false} LoadTabsAppend(f1: seq<string>, r1: seq<Option<string>>,
                                          f2: seq<string>, r2: seq<Option<string>>, counter: nat)
    requires |f1| == |r1| && |f2| == |r2|
    ensures LoadTabs(f1 + f2, r1 + r2, counter)
         == LoadTabs(f1, r1, counter) + LoadTabs(f2, r2, counter + |LoadTabs(f1, r1, counter)|)
    decreases |f2|
  {
    if f2 == [] {
      assert f1 + f2 == f1 && r1 + r2 == r1;
    } else {
      var n := |f2| - 1;
      var g, q := f2[..n], r2[..n];
      assert f2 == g + [f2[n]] && r2 == q + [r2[n]];
      assert f1 + f2 == (f1 + g) + [f2[n]] && r1 + r2 == (r1 + q) + [r2[n]];
      var first := LoadTabs(f1, r1, counter);
      var m := |first|;
      var middle := LoadTabs(g, q, counter + m);
      LoadTabsAppend(f1, r1, g, q, counter);
      LoadTabsSnoc(f1 + g, r1 + q, f2[n], r2[n], counter);
      LoadTabsSnoc(g, q, f2[n], r2[n], counter + m);
      var id := counter + m + |middle| + 1;
      assert counter + |LoadTabs(f1 + g, r1 + q, counter)| + 1 == id;
      var step := LoadStep(id, f2[n], r2[n]);
      Regroup(first, middle, step);
    }
  }

  /** Regrouping a snoc step. */
  lemma Regroup(a: seq<Tab>, b: seq<Tab>, tail: seq<Tab>)
    ensures (a + b) + tail == a + (b + tail)
  {
  }

  /** A single file loads one tab, numbered `counter + 1`, when its read succeeds, and nothing when it fails. */
  lemma LoadOne(path: string, read: Option<string>, counter: nat)
    ensures read.Some? ==> LoadTabs([path], [read], counter) == [NewTab(counter + 1, path, read.value)]
    ensures read.None? ==> LoadTabs([path], [read], counter) == []
  {
    assert [path][..0] == [] && [read][..0] == [];
  }

  /** The keep-test of `uniqueNewTabs`: the tab's path is not among `open`. */
  function NotOpen(open: set<string>): Tab -> bool
  {
    (t: Tab) => t.filePath !in open
  }

  /** `uniqueNewTabs`: the loaded tabs whose path was not open before the drop, in drop-list order. */
  function UniqueNewTabs(current: seq<Tab>, loaded: seq<Tab>): seq<Tab>
  {
    Seqs.Filter(loaded, NotOpen(PathSet(current)))
  }

  /**
   * Deduplication is against the open tabs only: the new tabs are the loaded
   * tabs of unopened paths, and a path loaded twice in one batch is kept
   * twice, each loaded tab as often as it was loaded.
   */
  lemma UniqueNewTabsSpec(current: seq<Tab>, loaded: seq<Tab>)
    ensures forall t :: t in UniqueNewTabs(current, loaded) <==> t in loaded && t.filePath !in PathSet(current)
    ensures forall t: Tab :: t.filePath !in PathSet(current) ==>
      multiset(UniqueNewTabs(current, loaded))[t] == multiset(loaded)[t]
  {
    var keep := NotOpen(PathSet(current));
    Seqs.FilterMembers(loaded, keep);
    forall t: Tab | t.filePath !in PathSet(current)
      ensures multiset(UniqueNewTabs(current, loaded))[t] == multiset(loaded)[t]
    {
      Seqs.FilterCounts(loaded, keep, t);
    }
  }

  /** The new tabs keep drop-list order: those of two concatenated batches are each batch's new tabs, concatenated. */
  lemma UniqueNewTabsConcat(current: seq<Tab>, l1: seq<Tab>, l2: seq<Tab>)
    ensures UniqueNewTabs(current, l1 + l2) == UniqueNewTabs(current, l1) + UniqueNewTabs(current, l2)
  {
    Seqs.FilterConcat(l1, l2, NotOpen(PathSet(current)));
  }

  /** The keep-test of `closeTab`'s filter: the tab's id differs from `id`. */
  function OtherId(id: TabId): Tab -> bool
  {
    (t: Tab) => t.id != id
  }

  /** `tabs.filter(tab => tab.id !== tabId)`. */
  function WithoutId(tabs: seq<Tab>, id: TabId): seq<Tab>
  {
    Seqs.Filter(tabs, OtherId(id))
  }

  /** Closing keeps exactly the tabs of other ids; closing an id no tab has changes nothing. */
  lemma WithoutIdSpec(tabs: seq<Tab>, id: TabId)
    ensures forall t :: t in WithoutId(tabs, id) <==> t in tabs && t.id != id
    ensures !HasTab(tabs, id) ==> WithoutId(tabs, id) == tabs
  {
    Seqs.FilterMembers(tabs, OtherId(id));
    if !HasTab(tabs, id) {
      forall i | 0 <= i < |tabs| ensures OtherId(id)(tabs[i]) {
        assert tabs[i] in tabs;
      }
      Seqs.FilterKeepsAll(tabs, OtherId(id));
    }
  }

  /** `tabs.findIndex(tab => tab.id === tabId)`. */
  function IndexOfId(tabs: seq<Tab>, id: TabId): (i: int)
    ensures -1 <= i < |tabs|
    ensures 0 <= i ==> tabs[i].id == id
    ensures i == -1 <==> !HasTab(tabs, id)
  {
    Seqs.FindIndex(tabs, (t: Tab) => t.id == id)
  }

  /** With distinct ids, the index of a tab's id is that tab's position. */
  lemma IndexOfOwnId(tabs: seq<Tab>, i: nat)
    requires IdsDistinct(tabs) && i < |tabs|
    ensures IndexOfId(tabs, tabs[i].id) == i
  {
    assert tabs[i] in tabs;
  }

  /**
   * `tabs.find(t => t.filePath is in paths)` as an index: the first tab in
   * tab-bar order whose path is in `paths`, or -1.
   */
  function FirstWithPathIn(tabs: seq<Tab>, paths: set<string>): (i: int)
    ensures -1 <= i < |tabs|
    ensures 0 <= i ==> tabs[i].filePath in paths && forall j :: 0 <= j < i ==> tabs[j].filePath !in paths
    ensures i == -1 <==> forall t :: t in tabs ==> t.filePath !in paths
  {
    Seqs.FindIndex(tabs, (t: Tab) => t.filePath in paths)
  }

  /** With distinct ids, closing the tab at `i` removes exactly that position and keeps the others in order. */
  lemma WithoutIdAt(tabs: seq<Tab>, i: nat)
    requires IdsDistinct(tabs) && i < |tabs|
    ensures WithoutId(tabs, tabs[i].id) == tabs[..i] + tabs[i + 1..]
  {
    var keep := OtherId(tabs[i].id);
    var left, right := tabs[..i], tabs[i + 1..];
    assert tabs == left + ([tabs[i]] + right);
    forall k | 0 <= k < |left| ensures keep(left[k]) {
      assert left[k] == tabs[k];
    }
    forall k | 0 <= k < |right| ensures keep(right[k]) {
      assert right[k] == tabs[i + 1 + k];
    }
    Seqs.FilterRemovesOne(left, tabs[i], right, keep);
    assert tabs[i] in tabs;
  }

  /**
   * What closing leaves: the list without the tab at the id's index, the
   * others in order, or the list unchanged when no tab has the id.
   */
  lemma WithoutIdResult(tabs: seq<Tab>, id: TabId)
    requires IdsDistinct(tabs)
    ensures 0 <= IndexOfId(tabs, id) ==>
      WithoutId(tabs, id) == tabs[..IndexOfId(tabs, id)] + tabs[IndexOfId(tabs, id) + 1..]
    ensures IndexOfId(tabs, id) < 0 ==> WithoutId(tabs, id) == tabs
  {
    var i := IndexOfId(tabs, id);
    if 0 <= i {
      WithoutIdAt(tabs, i);
    } else {
      WithoutIdSpec(tabs, id);
    }
  }

  /**
   * Closing the active tab at position `i` while others remain activates
   * `newTabs[max(0, i - 1)]`: that index is in bounds, and the tab there is
   * the closed tab's left neighbour, or the new first tab when `i` was 0.
   */
  lemma CloseActivatesNeighbour(tabs: seq<Tab>, i: nat)
    requires IdsDistinct(tabs) && i < |tabs| && 1 < |tabs|
    ensures var rest := WithoutId(tabs, tabs[i].id);
      |rest| == |tabs| - 1 && Max(0, i - 1) < |rest|
      && rest[Max(0, i - 1)] == if i > 0 then tabs[i - 1] else tabs[1]
  {
    WithoutIdAt(tabs, i);
  }

  function Max(a: int, b: int): int
  {
    if a < b then b else a
  }

  /** Putting a tab in front of distinct-id tabs that do not carry its id keeps ids distinct. */
  lemma ConsKeepsIdsDistinct(head: Tab, rest: seq<Tab>)
    requires IdsDistinct(rest)
    requires forall t :: t in rest ==> t.id != head.id
    ensures IdsDistinct([head] + rest)
  {
    var r := [head] + rest;
    forall i, j | 0 <= i < j < |r| ensures r[i].id != r[j].id {
      assert r[j] == rest[j - 1] && rest[j - 1] in rest;
      if 0 < i {
        assert r[i] == rest[i - 1];
      }
    }
  }

  /** A filter of distinct-id tabs still has distinct ids. */
  lemma {:induction false} FilterKeepsIdsDistinct(tabs: seq<Tab>, keep: Tab -> bool)
    requires IdsDistinct(tabs)
    ensures IdsDistinct(Seqs.Filter(tabs, keep))
    decreases |tabs|
  {
    if tabs != [] {
      var tail := tabs[1..];
      var rest := Seqs.Filter(tail, keep);
      assert IdsDistinct(tail) by {
        forall i, j | 0 <= i < j < |tail| ensures tail[i].id != tail[j].id {
          assert tail[i] == tabs[i + 1] && tail[j] == tabs[j + 1];
        }
      }
      FilterKeepsIdsDistinct(tail, keep);
      if keep(tabs[0]) {
        Seqs.FilterMembers(tail, keep);
        forall t | t in rest ensures t.id != tabs[0].id {
          var k :| 0 <= k < |tail| && tail[k] == t;
          assert tabs[k + 1] == t;
        }
        ConsKeepsIdsDistinct(tabs[0], rest);
      }
    }
  }

  /** Appending tabs numbered above every existing id keeps ids distinct. */
  lemma AppendKeepsIdsDistinct(a: seq<Tab>, b: seq<Tab>, bound: nat)
    requires IdsDistinct(a) && IdsDistinct(b)
    requires forall t :: t in a ==> t.id <= bound
    requires forall t :: t in b ==> bound < t.id
    ensures IdsDistinct(a + b)
  {
    var r := a + b;
    forall i, j | 0 <= i < j < |r| ensures r[i].id != r[j].id {
      if j < |a| {
        assert r[i] == a[i] && r[j] == a[j];
      } else if i < |a| {
        assert r[i] == a[i] && a[i] in a;
        assert r[j] == b[j - |a|] && b[j - |a|] in b;
      } else {
        assert r[i] == b[i - |a|] && r[j] == b[j - |a|];
      }
    }
  }

  /**
   * The session invariant on the tab part of the state: ids distinct and
   * none above the counter; an active id exactly when there are tabs, naming
   * one of them.
   */
  predicate Consistent(tabs: seq<Tab>, active: Option<TabId>, counter: nat)
  {
    IdsDistinct(tabs)
    && (forall t :: t in tabs ==> t.id <= counter)
    && (active.None? <==> tabs == [])
    && (active.Some? ==> HasTab(tabs, active.value))
  }

  /** A tab click, or activating an already-open tab, keeps the invariant. */
  lemma ActivateKeepsConsistent(tabs: seq<Tab>, active: Option<TabId>, counter: nat, i: nat)
    requires Consistent(tabs, active, counter) && i < |tabs|
    ensures Consistent(tabs, Some(tabs[i].id), counter)
  {
    assert tabs[i] in tabs;
  }

  /** Appending a freshly read tab under the next id and activating it keeps the invariant. */
  lemma AppendOneKeepsConsistent(tabs: seq<Tab>, active: Option<TabId>, counter: nat, path: string, content: string)
    requires Consistent(tabs, active, counter)
    ensures Consistent(tabs + [NewTab(counter + 1, path, content)], Some(counter + 1), counter + 1)
  {
    var t := NewTab(counter + 1, path, content);
    AppendKeepsIdsDistinct(tabs, [t], counter);
    assert t in tabs + [t];
  }

  /**
   * Closing keeps the invariant: removing `id` keeps ids distinct; an active
   * tab other than the closed one survives; and when the closed tab was
   * active and tabs remain, its old index `i` gives an in-bounds
   * `max(0, i - 1)` whose tab may become active.
   */
  lemma CloseKeepsConsistent(tabs: seq<Tab>, active: Option<TabId>, counter: nat, id: TabId)
    requires Consistent(tabs, active, counter)
    ensures active != Some(id) ==> Consistent(WithoutId(tabs, id), active, counter)
    ensures active == Some(id) && WithoutId(tabs, id) == [] ==> Consistent([], None, counter)
    ensures active == Some(id) && WithoutId(tabs, id) != [] ==>
      0 <= IndexOfId(tabs, id) && Max(0, IndexOfId(tabs, id) - 1) < |WithoutId(tabs, id)|
      && Consistent(WithoutId(tabs, id), Some(WithoutId(tabs, id)[Max(0, IndexOfId(tabs, id) - 1)].id), counter)
  {
    var rest := WithoutId(tabs, id);
    WithoutIdSpec(tabs, id);
    FilterKeepsIdsDistinct(tabs, OtherId(id));
    if active.Some? && active.value != id {
      var t :| t in tabs && t.id == active.value;
      assert t in rest;
    }
    if active == Some(id) && rest != [] {
      var i := IndexOfId(tabs, id);
      assert 0 <= i;
      CloseActivatesNeighbour(tabs, i);
      assert rest[Max(0, i - 1)] in rest;
    }
  }

  /**
   * A drop keeps the invariant, whichever branch it takes: the counter
   * advances past the loaded ids, and the appended tabs have distinct ids
   * above all open ones.
   */
  lemma DropKeepsConsistent(tabs: seq<Tab>, active: Option<TabId>, counter: nat,
                            files: seq<string>, outcomes: seq<Option<string>>)
    requires Consistent(tabs, active, counter) && |files| == |outcomes|
    ensures var loaded := LoadTabs(files, outcomes, counter);
      var newTabs := UniqueNewTabs(tabs, loaded);
      var first := FirstWithPathIn(tabs, PathSet(loaded));
      && (newTabs != [] ==> Consistent(tabs + newTabs, Some(newTabs[0].id), counter + |loaded|))
      && (newTabs == [] ==> Consistent(tabs, active, counter + |loaded|))
      && (newTabs == [] && 0 <= first ==> Consistent(tabs, Some(tabs[first].id), counter + |loaded|))
  {
    var loaded := LoadTabs(files, outcomes, counter);
    var newTabs := UniqueNewTabs(tabs, loaded);
    var first := FirstWithPathIn(tabs, PathSet(loaded));
    if newTabs != [] {
      LoadTabsIds(files, outcomes, counter);
      UniqueNewTabsSpec(tabs, loaded);
      FilterKeepsIdsDistinct(loaded, NotOpen(PathSet(tabs)));
      forall t | t in newTabs ensures counter < t.id <= counter + |loaded| {
        var k :| 0 <= k < |loaded| && loaded[k] == t;
      }
      AppendKeepsIdsDistinct(tabs, newTabs, counter);
      assert newTabs[0] in tabs + newTabs;
    } else if 0 <= first {
      assert tabs[first] in tabs;
    }
  }
}
