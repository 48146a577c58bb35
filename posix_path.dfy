/**
 * `os.path.basename(os.path.normpath(folder))` on a POSIX system: how
 * read_collection_logs turns a collection folder's path into the
 * collection's name.
 */
module PosixPath {

  /** Position of the last '/' in `s`. */
  function LastSlash(s: string): (i: nat)
    requires '/' in s
    ensures i < |s| && s[i] == '/'
    ensures forall j :: i < j < |s| ==> s[j] != '/'
    decreases |s|
  {
    if s[|s| - 1] == '/' then |s| - 1
    else
      assert s == s[..|s| - 1] + [s[|s| - 1]];
      LastSlash(s[..|s| - 1])
  }

  /** `s.split('/')`: the text between separators, in order; never an empty list. */
  function SplitPath(s: string): (parts: seq<string>)
    ensures |parts| >= 1
    decreases |s|
  {
    if '/' !in s then [s]
    else
      var i := LastSlash(s);
      SplitPath(s[..i]) + [s[i + 1..]]
  }

  /** `'/'.join(parts)`. */
  function JoinPath(parts: seq<string>): string
    requires |parts| >= 1
  {
    if |parts| == 1 then parts[0] else JoinPath(parts[..|parts| - 1]) + "/" + parts[|parts| - 1]
  }

  /** Splitting at the separators loses nothing: joining the parts gives the path back. */
  lemma {:induction false} JoinSplitPath(s: string)
    ensures JoinPath(SplitPath(s)) == s
    decreases |s|
  {
    if '/' in s {
      var i := LastSlash(s);
      var parts := SplitPath(s);
      JoinSplitPath(s[..i]);
      assert parts[..|parts| - 1] == SplitPath(s[..i]);
      assert s == s[..i] + "/" + s[i + 1..];
    }
  }

  /** No part of a split path holds a separator. */
  lemma {:induction false} SplitPathParts(s: string)
    ensures forall i :: 0 <= i < |SplitPath(s)| ==> '/' !in SplitPath(s)[i]
    decreases |s|
  {
    if '/' in s {
      var i := LastSlash(s);
      SplitPathParts(s[..i]);
    }
  }

  /** A component that has no separator in it, written after a separator, is the last part. */
  lemma SplitPathAppend(parent: string, name: string)
    requires '/' !in name
    ensures SplitPath(parent + "/" + name) == SplitPath(parent) + [name]
  {
    var s := parent + "/" + name;
    assert s[|parent|] == '/';
    var i := LastSlash(s);
    assert forall j :: |parent| < j < |s| ==> s[j] == name[j - |parent| - 1];
    assert i == |parent|;
    assert s[..i] == parent && s[i + 1..] == name;
  }

  /**
   * One step of normpath's component loop: "" and "." are dropped; ".." removes
   * the component kept before it, unless there is none (it is kept in a relative
   * path and dropped at the root of an absolute one) or that one is itself "..".
   */
  function NormStep(kept: seq<string>, comp: string, absolute: bool): seq<string> {
    if comp == "" || comp == "." then kept
    else if comp != ".." || (!absolute && kept == []) || (kept != [] && kept[|kept| - 1] == "..") then kept + [comp]
    else if kept != [] then kept[..|kept| - 1]
    else kept
  }

  /** The components normpath keeps, after processing `parts` left to right. */
  function NormComponents(parts: seq<string>, absolute: bool): seq<string>
    decreases |parts|
  {
    if parts == [] then []
    else NormStep(NormComponents(parts[..|parts| - 1], absolute), parts[|parts| - 1], absolute)
  }

  /**
   * What normpath promises of the components it keeps: none is empty or ".", none
   * holds a separator, and an absolute path keeps no "..".
   */
  lemma {:induction false} NormComponentsClean(parts: seq<string>, absolute: bool)
    requires forall i :: 0 <= i < |parts| ==> '/' !in parts[i]
    ensures forall c :: c in NormComponents(parts, absolute) ==> c != "" && c != "." && '/' !in c
    ensures absolute ==> ".." !in NormComponents(parts, absolute)
    decreases |parts|
  {
    if parts != [] {
      NormComponentsClean(parts[..|parts| - 1], absolute);
    }
  }

  predicate IsAbsolute(path: string) {
    path != [] && path[0] == '/'
  }

  /**
   * `basename(normpath(path))`: the last component normpath keeps; "." when a
   * relative path normalises to nothing and "" when an absolute one does (normpath
   * then gives "/", whose basename is empty).
   */
  function CollectionName(path: string): string {
    var kept := NormComponents(SplitPath(path), IsAbsolute(path));
    if kept == [] then (if IsAbsolute(path) then "" else ".") else kept[|kept| - 1]
  }

  /**
   * The name is a single path component: never a separator in it, and empty
   * only for a path that normalises to the root.
   */
  lemma CollectionNameIsComponent(path: string)
    ensures '/' !in CollectionName(path)
    ensures CollectionName(path) == "" <==> IsAbsolute(path) && NormComponents(SplitPath(path), true) == []
  {
    SplitPathParts(path);
    NormComponentsClean(SplitPath(path), IsAbsolute(path));
  }

  /** A trailing separator does not change the name: "logs/Foo/" and "logs/Foo" agree. */
  lemma TrailingSeparatorIgnored(path: string)
    requires path != []
    ensures CollectionName(path + "/") == CollectionName(path)
  {
    SplitPathAppend(path, "");
    assert path + "/" == path + "/" + "";
    var parts := SplitPath(path) + [""];
    assert parts[..|parts| - 1] == SplitPath(path);
    assert (path + "/")[0] == path[0];
  }

  /**
   * A folder listed inside a parent folder is named by its own directory name,
   * whether or not the listing ends the path with a separator.
   */
  lemma ChildFolderName(parent: string, name: string)
    requires name != "" && name != "." && name != ".." && '/' !in name
    ensures CollectionName(parent + "/" + name) == name
    ensures CollectionName(parent + "/" + name + "/") == name
  {
    var path := parent + "/" + name;
    SplitPathAppend(parent, name);
    var parts := SplitPath(parent) + [name];
    assert parts[..|parts| - 1] == SplitPath(parent);
    TrailingSeparatorIgnored(path);
  }

  lemma LogsFooExample()
    ensures CollectionName("logs/Foo/") == "Foo" == CollectionName("logs/Foo")
  {
    ChildFolderName("logs", "Foo");
    assert "logs" + "/" + "Foo" == "logs/Foo";
    assert "logs" + "/" + "Foo" + "/" == "logs/Foo/";
  }
}
