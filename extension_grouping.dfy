/**
 * `getExtension`, `getCompatibleExtensions` and `findMatchingOpenFiles`:
 * files whose extensions belong to the same configured group (one group per
 * supported language) are offered together. The groups are configuration
 * and the list of open files comes from the editor; both are parameters.
 */
module ExtensionGrouping {
  import opened JsText

  /** The match of `/[^\.]*$/`: everything after the last `.`, or the whole path when it has none. */
  function GetExtension(path: string): (r: string)
    ensures |r| <= |path| && r == path[|path| - |r|..]
    ensures '.' !in r
    ensures |r| < |path| ==> path[|path| - |r| - 1] == '.'
  {
    if |path| == 0 || path[|path| - 1] == '.' then ""
    else GetExtension(path[..|path| - 1]) + [path[|path| - 1]]
  }

  /** Reference definition: the first group holding `ext`, or the group of `ext` alone. */
  function CompatibleExtensions(groups: seq<seq<string>>, ext: string): seq<string> {
    if |groups| == 0 then [ext]
    else if ext in groups[0] then groups[0]
    else CompatibleExtensions(groups[1..], ext)
  }

  /** `getCompatibleExtensions`: the groups are tried in order and the first one holding `ext` is returned. */
  method GetCompatibleExtensions(groups: seq<seq<string>>, ext: string) returns (r: seq<string>)
    ensures r == CompatibleExtensions(groups, ext)
  {
    var i := 0;
    while i < |groups|
      invariant 0 <= i <= |groups|
      invariant CompatibleExtensions(groups[i..], ext) == CompatibleExtensions(groups, ext)
    {
      assert groups[i..][1..] == groups[i + 1..];
      if ext in groups[i] {
        return groups[i];
      }
      i := i + 1;
    }
    return [ext];
  }

  /** Every extension is compatible with itself. */
  lemma {:induction false} CompatibleHasSelf(groups: seq<seq<string>>, ext: string)
    ensures ext in CompatibleExtensions(groups, ext)
  {
    if |groups| > 0 && ext !in groups[0] {
      CompatibleHasSelf(groups[1..], ext);
    }
  }

  /** The compatible extensions are those of the first group holding `ext`. */
  lemma {:induction false} CompatibleIsFirstGroup(groups: seq<seq<string>>, ext: string, i: nat)
    requires i < |groups| && ext in groups[i]
    requires forall j :: 0 <= j < i ==> ext !in groups[j]
    ensures CompatibleExtensions(groups, ext) == groups[i]
  {
    if i > 0 {
      assert ext !in groups[0];
      forall j | 0 <= j < i - 1 ensures ext !in groups[1..][j] {
        assert groups[1..][j] == groups[j + 1];
      }
      CompatibleIsFirstGroup(groups[1..], ext, i - 1);
    }
  }

  /** An extension in no group is compatible with itself only. */
  lemma {:induction false} CompatibleUngrouped(groups: seq<seq<string>>, ext: string)
    requires forall j :: 0 <= j < |groups| ==> ext !in groups[j]
    ensures CompatibleExtensions(groups, ext) == [ext]
  {
    if |groups| > 0 {
      assert ext !in groups[0];
      forall j | 0 <= j < |groups| - 1 ensures ext !in groups[1..][j] {
        assert groups[1..][j] == groups[j + 1];
      }
      CompatibleUngrouped(groups[1..], ext);
    }
  }

  /** `openFiles.filter(...)`: the files whose extension is among `supported`, in their order. */
  function KeepCompatible(openFiles: seq<string>, supported: seq<string>): seq<string> {
    if |openFiles| == 0 then [] else Kept(openFiles[0], supported) + KeepCompatible(openFiles[1..], supported)
  }

  /** One file's share of the filtered list. */
  function Kept(f: string, supported: seq<string>): seq<string> {
    if GetExtension(f) in supported then [f] else []
  }

  /** A file is kept exactly when it is open and its extension is supported. */
  lemma {:induction false} KeepCompatibleMembers(openFiles: seq<string>, supported: seq<string>, f: string)
    ensures f in KeepCompatible(openFiles, supported) <==> f in openFiles && GetExtension(f) in supported
  {
    if |openFiles| > 0 {
      var head, tail := openFiles[0], openFiles[1..];
      KeepCompatibleMembers(tail, supported, f);
      assert openFiles == [head] + tail;
      if GetExtension(head) in supported {
        assert KeepCompatible(openFiles, supported) == [head] + KeepCompatible(tail, supported);
      } else {
        assert KeepCompatible(openFiles, supported) == KeepCompatible(tail, supported);
        assert f == head ==> GetExtension(f) !in supported;
      }
    }
  }

  /** The filter works file by file: it distributes over concatenation, so the order of the files is kept. */
  lemma {:induction false} KeepCompatibleAppend(a: seq<string>, b: seq<string>, supported: seq<string>)
    ensures KeepCompatible(a + b, supported) == KeepCompatible(a, supported) + KeepCompatible(b, supported)
  {
    if |a| == 0 {
      assert a + b == b;
    } else {
      var k := Kept(a[0], supported);
      var a', b' := KeepCompatible(a[1..], supported), KeepCompatible(b, supported);
      DropFirstOfConcat(a, b);
      assert KeepCompatible(a + b, supported) == k + KeepCompatible(a[1..] + b, supported);
      KeepCompatibleAppend(a[1..], b, supported);
      ConcatAssoc(k, a', b');
    }
  }

  /** `findMatchingOpenFiles`: the open files compatible with the extension of `path`. */
  method FindMatchingOpenFiles(groups: seq<seq<string>>, openFiles: seq<string>, path: string)
      returns (imports: seq<string>)
    ensures imports == KeepCompatible(openFiles, CompatibleExtensions(groups, GetExtension(path)))
  {
    var extension := GetExtension(path);
    var supported := GetCompatibleExtensions(groups, extension);
    imports := KeepCompatible(openFiles, supported);
  }

  /**
   * Two extensions of the first group that holds the extension of `path`:
   * an open file with the other one is offered, and an open file whose
   * extension is outside that group is not.
   */
  lemma SameGroupOffered(groups: seq<seq<string>>, openFiles: seq<string>, path: string, i: nat, f: string, g: string)
    requires i < |groups| && GetExtension(path) in groups[i]
    requires forall j :: 0 <= j < i ==> GetExtension(path) !in groups[j]
    requires f in openFiles && GetExtension(f) in groups[i]
    requires GetExtension(g) !in groups[i]
    ensures f in KeepCompatible(openFiles, CompatibleExtensions(groups, GetExtension(path)))
    ensures g !in KeepCompatible(openFiles, CompatibleExtensions(groups, GetExtension(path)))
  {
    CompatibleIsFirstGroup(groups, GetExtension(path), i);
    KeepCompatibleMembers(openFiles, groups[i], f);
    KeepCompatibleMembers(openFiles, groups[i], g);
  }
}
