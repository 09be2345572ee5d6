/**
 * The path handling of the drag-and-drop handler and of opening a file
 * (src/App.tsx): turning the drop event's payload into a list of paths,
 * keeping the markdown/text ones, and deriving a tab's display name.
 */
module FilePaths {
  import opened Wrappers
  import Seqs

  /**
   * The shapes a `tauri://drag-drop` payload is inspected for. An object whose
   * `paths` field is missing, falsy or not an array is `ObjectPayload(None)`;
   * `null`, `undefined`, numbers and the like are `OtherPayload`.
   */
  datatype Payload =
    | ArrayPayload(items: seq<string>)
    | ObjectPayload(paths: Option<seq<string>>)
    | StringPayload(text: string)
    | OtherPayload

  /** The payload normalisation: array as-is, the object's `paths` array, a lone string, or nothing. */
  function NormalizePayload(payload: Payload): seq<string>
  {
    match payload
    case ArrayPayload(items) => items
    case ObjectPayload(Some(paths)) => paths
    case ObjectPayload(None) => []
    case StringPayload(text) => [text]
    case OtherPayload => []
  }

  /** `s.endsWith(suffix)`. */
  predicate EndsWith(s: string, suffix: string)
  {
    |suffix| <= |s| && s[|s| - |suffix|..] == suffix
  }

  /** The extension test of the drop filter; it is case-sensitive. */
  predicate IsMarkdownPath(path: string)
  {
    EndsWith(path, ".md") || EndsWith(path, ".markdown") || EndsWith(path, ".txt")
  }

  /** `paths.filter(...)` with the extension test. */
  function MarkdownPaths(paths: seq<string>): seq<string>
  {
    Seqs.Filter(paths, IsMarkdownPath)
  }

  /** The filter keeps exactly the paths with an accepted extension, each as often as it was dropped. */
  lemma MarkdownPathsSpec(paths: seq<string>)
    ensures forall p :: p in MarkdownPaths(paths) <==> p in paths && IsMarkdownPath(p)
    ensures forall p :: multiset(MarkdownPaths(paths))[p] == if IsMarkdownPath(p) then multiset(paths)[p] else 0
  {
    Seqs.FilterMembers(paths, IsMarkdownPath);
    forall p ensures multiset(MarkdownPaths(paths))[p] == if IsMarkdownPath(p) then multiset(paths)[p] else 0 {
      Seqs.FilterCounts(paths, IsMarkdownPath, p);
    }
  }

  /** The filter keeps the drop order: the files of two concatenated lists are the two lists' files concatenated. */
  lemma MarkdownPathsConcat(a: seq<string>, b: seq<string>)
    ensures MarkdownPaths(a + b) == MarkdownPaths(a) + MarkdownPaths(b)
  {
    Seqs.FilterConcat(a, b, IsMarkdownPath);
  }

  /** `markdownFiles`: the files a drop event asks to open, by payload shape. */
  function DroppedFiles(payload: Payload): (files: seq<string>)
    ensures payload.ArrayPayload? ==> files == MarkdownPaths(payload.items)
    ensures payload.ObjectPayload? && payload.paths.Some? ==> files == MarkdownPaths(payload.paths.value)
    ensures payload.StringPayload? && IsMarkdownPath(payload.text) ==> files == [payload.text]
    ensures payload.StringPayload? && !IsMarkdownPath(payload.text) ==> files == []
    ensures payload.OtherPayload? || payload == ObjectPayload(None) ==> files == []
  {
    MarkdownPaths(NormalizePayload(payload))
  }

  /** `t` is a suffix of `s`. */
  predicate IsSuffix(t: string, s: string)
  {
    |t| <= |s| && s[|s| - |t|..] == t
  }

  /** `s.split(sep).pop()`: the text after the last `sep`, or all of `s` when it has none. */
  function LastSegment(s: string, sep: char): string
    decreases |s|
  {
    if s == [] then []
    else if s[|s| - 1] == sep then []
    else LastSegment(s[..|s| - 1], sep) + [s[|s| - 1]]
  }

  /**
   * `LastSegment` is a suffix free of `sep` that is preceded by `sep` unless
   * it is the whole string. These three facts determine it uniquely.
   */
  lemma {:induction false} LastSegmentSpec(s: string, sep: char)
    ensures var seg := LastSegment(s, sep);
      IsSuffix(seg, s) && sep !in seg && (|seg| < |s| ==> s[|s| - |seg| - 1] == sep)
    decreases |s|
  {
    if s != [] && s[|s| - 1] != sep {
      var init := s[..|s| - 1];
      LastSegmentSpec(init, sep);
      assert s == init + [s[|s| - 1]];
    }
  }

  /**
   * A tab's `fileName`: `split('/').pop() || split('\\').pop() || path`. The
   * name is the final `/`-segment whenever the path does not end in `/`; so a
   * path with no `/` at all, such as a Windows path `C:\docs\a.md`, is its own
   * name. Only a path ending in `/` falls back to the text after the last `\`.
   */
  function FileName(path: string): string
  {
    var afterSlash := LastSegment(path, '/');
    if afterSlash != [] then afterSlash
    else
      var afterBackslash := LastSegment(path, '\\');
      if afterBackslash != [] then afterBackslash else path
  }

  /**
   * What `FileName` computes: a suffix of the path that is its final
   * `/`-segment, non-empty, whenever the path does not end in `/` (in
   * particular the whole path when it has no `/`); for a path ending in `/`,
   * the text after its last `\`. Together with being a suffix these
   * determine the name.
   */
  lemma FileNameSpec(path: string)
    ensures var name := FileName(path);
      IsSuffix(name, path)
      && ('/' !in path ==> name == path)
      && (path != [] && path[|path| - 1] != '/' ==>
            name != [] && '/' !in name && (|name| < |path| ==> path[|path| - |name| - 1] == '/'))
      && (path != [] && path[|path| - 1] == '/' ==>
            name != [] && '\\' !in name && (|name| < |path| ==> path[|path| - |name| - 1] == '\\'))
  {
    var afterSlash := LastSegment(path, '/');
    LastSegmentSpec(path, '/');
    if afterSlash == [] {
      var afterBackslash := LastSegment(path, '\\');
      LastSegmentSpec(path, '\\');
      if path != [] && path[|path| - 1] == '/' {
        var init := path[..|path| - 1];
        assert afterBackslash == LastSegment(init, '\\') + ['/'];
      }
    }
  }
}
