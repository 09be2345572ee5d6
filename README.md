# Markdown reader tab session, in Dafny

This project models the session logic of a small desktop Markdown reader:

- the set of open tabs, kept in tab-bar order;
- the active tab;
- the light/dark theme flag and its persisted copy;
- the counter that numbers new tabs.

It models the four ways that state changes:

- dropping files onto the window;
- opening a file by path;
- closing a tab;
- clicking a tab or the theme button.

It also models the keyboard chord table of the `useKeyboardShortcuts` hook.

Modules:

- `Wrappers` holds `Option`.
- `Seqs` holds the generic `filter` and `findIndex` the handlers use, with their properties.
- `FilePaths` covers the drop payload normalisation, the `.md`/`.markdown`/`.txt` filter and the display-name derivation.
- `Theme` covers loading and saving the theme preference.
- `TabList` holds the `Tab` record, the pure list computations of the handlers, and the session invariant `Consistent` with one preservation lemma per transition.
- `TabSession` holds the class `Session`. Its fields are the component's state. Its methods are the handlers, each one atomic transition. `Valid()` is `Consistent` plus "the stored theme is the flag's".
- `Shortcuts` models `handleKeyDown` as a function from a key event and the set of supplied handlers to whether the default was prevented and which handlers ran.

File reads are inputs:

- A drop receives one `Option<string>` per accepted file, in drop-list order. `None` is a failed read.
- Opening receives one `Option<string>`.

Three behaviours of the code that are easy to misread:

- Deduplication is only against tabs open before the drop (src/App.tsx:147-148). So dropping `a.md`, `a.md`, `b.txt`, `c.png` on an empty session yields three tabs when every read succeeds, `a.md` twice and `b.txt`, not two. `DropBatchWithDuplicatePath` proves this. "No two tabs share a path" is therefore not an invariant; only distinct ids are.
- `App` does not use the shortcut hook, and has no next/previous-tab operation of its own. The hook binds Ctrl/Cmd+F to a search handler.
- A path containing no `/` is its own display name, even a Windows path with backslashes. This is because `split('/').pop()` is already non-empty there. The backslash fallback only applies to paths that end in `/`.

## Model

| member | source | states |
|---|---|---|
| Seqs.Filter | src/App.tsx:223 | `Array.prototype.filter` on a sequence: the result is no longer than the input and every element passes the test |
| Seqs.FilterMembers | src/App.tsx:223 | an element is in the filtered list exactly when it is in the input and passes the test |
| Seqs.FilterCounts | src/App.tsx:148 | each kept element occurs as often as in the input; a rejected one not at all (duplicates survive) |
| Seqs.FilterConcat | src/App.tsx:119-121 | filtering distributes over concatenation, so order is kept |
| Seqs.FilterKeepsAll | src/App.tsx:223 | a list whose every element passes the test is returned unchanged |
| Seqs.FilterRemovesOne | src/App.tsx:223 | removing the single rejected element between accepted parts leaves the parts joined |
| Seqs.FindIndex | src/App.tsx:228 | `findIndex`: the first index satisfying the test, or -1 exactly when no element does |
| FilePaths.NormalizePayload | src/App.tsx:108-117 | definition: the array as is, the object's `paths` array, a lone string as one path, otherwise nothing; characterised by `DroppedFiles` |
| FilePaths.IsMarkdownPath | src/App.tsx:119-120 | definition: the path ends in `.md`, `.markdown` or `.txt`, compared case-sensitively |
| FilePaths.MarkdownPaths | src/App.tsx:119-121 | definition: the extension filter as a `Seqs.Filter`; characterised by `MarkdownPathsSpec` and `MarkdownPathsConcat` |
| FilePaths.DroppedFiles | src/App.tsx:108-121 | array payload used as is, object's `paths` array, lone string as one path, anything else empty; then only the accepted extensions remain |
| FilePaths.MarkdownPathsSpec | src/App.tsx:119-121 | a path survives the filter exactly when it ends in `.md`, `.markdown` or `.txt`, as many times as it was dropped |
| FilePaths.MarkdownPathsConcat | src/App.tsx:119-121 | the filter keeps drop order |
| FilePaths.LastSegment | src/App.tsx:129 | definition of `split(sep).pop()`, peeling characters off the end; characterised by `LastSegmentSpec` |
| FilePaths.FileName | src/App.tsx:129 | definition: the `/`-segment, else the `\`-segment, else the whole path, each taken only when non-empty; characterised by `FileNameSpec` |
| FilePaths.LastSegmentSpec | src/App.tsx:129 | `split(sep).pop()` is the suffix free of `sep` that is preceded by `sep` or is the whole string |
| FilePaths.FileNameSpec | src/App.tsx:186 | the display name is a suffix of the path: the whole path when it has no `/`, the non-empty final `/`-segment when it does not end in `/`, otherwise the text after the last `\` |
| Theme.LoadTheme | src/App.tsx:78-79 | definition: dark exactly when the stored value is `dark`; `SaveTheme` proves it inverts saving |
| Theme.SaveTheme | src/App.tsx:85 | the stored value is `dark` or `light` and loading it back gives the flag (src/App.tsx:78-79) |
| Theme.SaveThemeInjective | src/App.tsx:85 | different flags store different values |
| TabList.NewTab | src/App.tsx:185-193 | a new tab carries the given id, path and content, and its name is `FileName` of the path, so `FileNameSpec` describes every tab's name |
| TabList.LoadTabs | src/App.tsx:125-144 | `validTabs` holds at most one tab per accepted file |
| TabList.LoadTabsIds | src/App.tsx:125-144 | the loaded tabs are numbered counter+1, counter+2, … in order, each for a dropped file and named after its path |
| TabList.LoadTabsSnoc | src/App.tsx:126-140 | one more file adds its tab at the end under the next id when read, and nothing when its read fails |
| TabList.LoadTabsAppend | src/App.tsx:125-144 | loading two batches one after the other equals loading their concatenation, the second numbered on from the first |
| TabList.LoadOne | src/App.tsx:127-139 | a single file yields exactly its tab under counter+1, or nothing on a failed read |
| TabList.PathSet | src/App.tsx:147 | definition of `existingPaths`: the set of the tabs' paths |
| TabList.UniqueNewTabs | src/App.tsx:147-148 | definition: the loaded tabs whose path is not in `PathSet` of the open tabs; characterised by `UniqueNewTabsSpec` and `UniqueNewTabsConcat` |
| TabList.UniqueNewTabsSpec | src/App.tsx:147-148 | the new tabs are the loaded tabs whose path was not already open, each as often as it was loaded |
| TabList.UniqueNewTabsConcat | src/App.tsx:148 | the new tabs of two concatenated batches are the new tabs of each, concatenated, so they keep drop-list order |
| TabList.WithoutId | src/App.tsx:223 | definition: the tabs whose id differs from the closed one; characterised by `WithoutIdSpec`, `WithoutIdAt` and `WithoutIdResult` |
| TabList.WithoutIdSpec | src/App.tsx:223 | closing keeps exactly the tabs of other ids; an id no tab has changes nothing |
| TabList.IndexOfId | src/App.tsx:228 | the index holds the id, or is -1 exactly when no tab has it |
| TabList.IndexOfOwnId | src/App.tsx:228 | with distinct ids, the index of a tab's id is that tab's position |
| TabList.FirstWithPathIn | src/App.tsx:151-153 | the first tab in tab-bar order whose path is among the given ones, or -1 exactly when no tab's is |
| TabList.WithoutIdAt | src/App.tsx:223 | with distinct ids, removing a tab's id removes exactly its position and keeps the rest in order |
| TabList.WithoutIdResult | src/App.tsx:223-229 | the list after closing is the old list without the position `findIndex` reports, or unchanged when the id is absent |
| TabList.CloseActivatesNeighbour | src/App.tsx:227-229 | with more than one tab, `newTabs[max(0, i-1)]` is in bounds and is the left neighbour of the closed tab, or the second tab when the first was closed |
| TabList.FilterKeepsIdsDistinct | src/App.tsx:223 | filtering a list of distinct ids keeps them distinct |
| TabList.AppendKeepsIdsDistinct | src/App.tsx:161 | appending tabs numbered above every existing id keeps ids distinct |
| TabList.ActivateKeepsConsistent | src/App.tsx:262 | activating any listed tab keeps the session invariant |
| TabList.AppendOneKeepsConsistent | src/App.tsx:187-196 | appending a fresh tab under the advanced counter and activating it keeps the invariant |
| TabList.CloseKeepsConsistent | src/App.tsx:221-235 | each branch of `closeTab` keeps the invariant, including the in-bounds choice of the next active tab |
| TabList.DropKeepsConsistent | src/App.tsx:146-162 | each branch of the drop's `setTabs` updater keeps the invariant once the counter has advanced past the loaded ids |
| TabSession.Session.constructor | src/App.tsx:73-81 | no tabs, nothing active, counter 0, dark exactly when `dark` was stored, and the invariant holds |
| TabSession.Session.ToggleTheme | src/App.tsx:243 | the flag flips and the stored value loads back as the new flag (src/App.tsx:84-87) |
| TabSession.Session.SelectTab | src/App.tsx:262 | the clicked tab becomes active, the invariant kept |
| TabSession.Session.OpenFileByPath | src/App.tsx:176-200 | an open path activates its first tab with no read; otherwise a read appends one tab under the next id and activates it; a failed read changes nothing |
| TabSession.Session.CloseTab | src/App.tsx:221-235 | the tab is removed with the others in order; closing the active tab activates `newTabs[max(0, i-1)]`, or nothing when none remain; closing another tab keeps the active one |
| TabSession.Session.LoadFiles | src/App.tsx:125-144 | the per-file loop yields exactly `LoadTabs` of the files and advances the counter once per successful read |
| TabSession.Session.MergeLoaded | src/App.tsx:146-162 | new tabs are appended and the first activated; with none, the list stays, and the first open tab with a loaded path is activated, or the active tab is kept |
| TabSession.Session.Drop | src/App.tsx:103-162 | an empty accepted list changes nothing; otherwise the counter advances by the successful reads and the merge above applies |
| TabSession.DroppedExampleFiles | src/App.tsx:119-121 | of `a.md`, `a.md`, `b.txt`, `c.png` the filter keeps `a.md`, `a.md`, `b.txt` |
| TabSession.LoadedExampleTabs | src/App.tsx:125-148 | three successful reads on an empty session give tabs 1, 2 and 3 in order, all new |
| TabSession.ToggleThemeTwice | src/App.tsx:243 | toggling twice restores the flag and the stored value; its frame names only those two fields, so the tabs, the active id and the counter are untouched |
| TabSession.DropBatchWithDuplicatePath | src/App.tsx:146-161 | that drop on a fresh session yields three tabs, `a.md` twice and `b.txt`, the first active, the two `a.md` tabs under different ids |
| Shortcuts.HandleKeyDown | src/useKeyboardShortcuts.ts:14-53 | the default is prevented exactly for a bound chord; only the bound command's handler runs, and only if supplied; without Ctrl/Cmd nothing happens |
| Shortcuts.ChordTable | src/useKeyboardShortcuts.ts:18-52 | the bindings row by row: Tab (next), Shift+Tab (previous), `w`, `o`, `t`, `f`; any other key does nothing |
| Shortcuts.UpperCaseLettersUnbound | src/useKeyboardShortcuts.ts:31-49 | key names compare case-sensitively, so `W`, `O`, `T`, `F` are unbound |

## Left out

- Rendering is not modelled: the memoised Markdown component, the syntax highlighter, the drag-over styling (`isDragging`) and the tab bar markup. They show state but do not change it.
- Listener setup and teardown are not modelled: `listen`/`unlisten` for the drag events and `addEventListener` for the keyboard hook.
- File reads, the open-file dialog (`openMarkdownFile`) and `console.error` are external I/O. Reads are inputs; the dialog's chosen path is the argument of `OpenFileByPath`.
- Tab ids in the program are strings made of `Date.now()`, the counter and the drop index. The model keeps only the counter value, which is what makes them distinct within a session.
- TabSession.Session.LoadFiles: in the program the reads run concurrently under `Promise.all`, and the counter is bumped when each read completes. The model runs them in drop-list order, so ids follow drop order. The program's order of ids among one batch may differ.
- TabSession.Session.OpenFileByPath: the program checks the `tabs` of the last render but appends with a functional update. Handlers are atomic here, so the two lists coincide. Interleavings with a concurrent drop are not modelled.
- `localStorage` and the body's `data-theme` attribute are one field, `storedTheme`, updated together with the flag. The effect that writes it after a render is treated as part of the toggle.
- TabSession.Session.SelectTab requires that a tab with the id exists, because a click can only come from a rendered tab.
- `event.stopPropagation()` in `closeTab` only keeps the click from also selecting the tab. Since handlers are separate transitions here, it is not modelled.
- FilePaths.Payload: the items of an array payload and of `payload.paths` are strings. In the program a non-string item makes `endsWith` throw, which abandons the whole drop; the model cannot express such a payload.
- The Rust entry point of the desktop shell and the version-sync build script are not part of this model.
