/** The in-memory file tree of jbash.filesystem.  Directory and File are
    FileSystemObject subclasses; here they are one class whose constant
    isDirectory says which of the two an object was constructed as.  Every object
    has a name, a parent directory (the root is its own parent) and a stored path;
    a directory has an ordered list of children and a file has contents (null
    until set). */
module FileSystem {
  import opened Outcomes
  import opened JavaText

  /** The path updatePath stores for an object called name: directly under "/"
      when its parent is its own parent (the root), else under the parent's
      stored path. */
  function ChildPath(parentIsRoot: bool, parentPath: string, name: string): (r: string)
    ensures parentIsRoot ==> r == "/" + name
    ensures !parentIsRoot ==> r == parentPath + "/" + name
  {
    if parentIsRoot then "/" + name else parentPath + "/" + name
  }

  /** The index of the first object in cs called n, or |cs| when there is none. */
  function FirstNamed(cs: seq<FileSystemObject>, n: string): (r: nat)
    reads (set c | c in cs)`name
    ensures r <= |cs|
    ensures forall j :: 0 <= j < r ==> cs[j].name != n
    ensures r < |cs| ==> cs[r].name == n
  {
    if |cs| == 0 then 0
    else if cs[0].name == n then 0
    else 1 + FirstNamed(cs[1..], n)
  }

  /** The index of the first occurrence of x in cs, or |cs| when it does not occur. */
  function FirstIndex(cs: seq<FileSystemObject>, x: FileSystemObject): (r: nat)
    ensures r <= |cs|
    ensures forall j :: 0 <= j < r ==> cs[j] != x
    ensures r < |cs| ==> cs[r] == x
  {
    if |cs| == 0 then 0
    else if cs[0] == x then 0
    else 1 + FirstIndex(cs[1..], x)
  }

  /** List.remove(Object): drop the first occurrence of x, keeping the others in order. */
  function RemoveFirst(cs: seq<FileSystemObject>, x: FileSystemObject): (r: seq<FileSystemObject>)
    ensures |r| == if x in cs then |cs| - 1 else |cs|
    ensures forall c :: c in r ==> c in cs
  {
    if |cs| == 0 then []
    else if cs[0] == x then cs[1..]
    else [cs[0]] + RemoveFirst(cs[1..], x)
  }

  /** RemoveFirst cuts out exactly the element at the first occurrence of x. */
  lemma {:induction false} RemoveFirstCut(cs: seq<FileSystemObject>, x: FileSystemObject)
    ensures var i := FirstIndex(cs, x);
      RemoveFirst(cs, x) == if i == |cs| then cs else cs[..i] + cs[i + 1..]
  {
    if |cs| > 0 && cs[0] != x {
      var tail := cs[1..];
      RemoveFirstCut(tail, x);
      var i := FirstIndex(tail, x);
      assert FirstIndex(cs, x) == i + 1;
      assert RemoveFirst(cs, x) == [cs[0]] + RemoveFirst(tail, x);
      if i < |tail| {
        assert tail[..i] == cs[1..i + 1];
        assert tail[i + 1..] == cs[i + 2..];
        assert [cs[0]] + cs[1..i + 1] == cs[..i + 1];
        ConcatAssoc([cs[0]], cs[1..i + 1], cs[i + 2..]);
      } else {
        assert [cs[0]] + tail == cs;
      }
    }
  }

  /** After appending x to children with no child called x.name, findChild(x.name)
      finds x. */
  lemma {:induction false} FindAfterAdd(cs: seq<FileSystemObject>, x: FileSystemObject)
    requires FirstNamed(cs, x.name) == |cs|
    ensures FirstNamed(cs + [x], x.name) == |cs|
  {
    if |cs| > 0 {
      assert (cs + [x])[1..] == cs[1..] + [x];
      FindAfterAdd(cs[1..], x);
    }
  }

  class FileSystemObject {
    const isDirectory: bool
    var name: string
    var parent: FileSystemObject?
    var path: string
    var children: seq<FileSystemObject>
    var contents: Option<string>

    /** new Directory(name, parent): a null parent makes the directory its own
        parent with path "/"; otherwise the path is derived from the parent. */
    constructor Directory(name: string, parent: FileSystemObject?)
      requires parent != null ==> parent.isDirectory
      ensures isDirectory && this.name == name && children == [] && contents == None
      ensures parent == null ==> this.parent == this && path == "/"
      ensures parent != null ==>
                this.parent == parent && path == ChildPath(parent.parent == parent, parent.path, name)
    {
      isDirectory := true;
      this.name := name;
      this.parent := parent;
      path := "";
      children := [];
      contents := None;
      new;
      if parent == null {
        this.parent := this;
        path := "/";
      } else {
        UpdatePath();
      }
    }

    /** new File(name, parent): no contents (null). */
    constructor File(name: string, parent: FileSystemObject)
      requires parent.isDirectory
      ensures !isDirectory && this.name == name && children == [] && contents == None
      ensures this.parent == parent && path == ChildPath(parent.parent == parent, parent.path, name)
    {
      isDirectory := false;
      this.name := name;
      this.parent := parent;
      path := "";
      children := [];
      contents := None;
      new;
      UpdatePath();
    }

    /** new File(name, parent, contents). */
    constructor FileWithContents(name: string, parent: FileSystemObject, contents: string)
      requires parent.isDirectory
      ensures !isDirectory && this.name == name && children == [] && this.contents == Some(contents)
      ensures this.parent == parent && path == ChildPath(parent.parent == parent, parent.path, name)
    {
      isDirectory := false;
      this.name := name;
      this.parent := parent;
      path := "";
      children := [];
      this.contents := Some(contents);
      new;
      UpdatePath();
    }

    /** updatePath: recompute this object's own path from its parent's stored
        path; nothing else changes, descendants included. */
    method UpdatePath()
      requires parent != null
      modifies this`path
      ensures path == ChildPath(parent.parent == parent, old(parent.path), name)
    {
      if parent.parent == parent {
        path := "/" + name;
      } else {
        path := parent.path + "/" + name;
      }
    }

    /** setName: the path is not recomputed. */
    method SetName(newName: string)
      modifies this`name
      ensures name == newName
    {
      name := newName;
    }

    /** setParent: the path is not recomputed. */
    method SetParent(newParent: FileSystemObject)
      requires newParent.isDirectory
      modifies this`parent
      ensures parent == newParent
    {
      parent := newParent;
    }

    /** Directory.addChild: append at the end. */
    method AddChild(c: FileSystemObject)
      requires isDirectory
      modifies this`children
      ensures children == old(children) + [c]
    {
      children := children + [c];
    }

    /** Directory.removeChild: drop the first occurrence of c. */
    method RemoveChild(c: FileSystemObject)
      requires isDirectory
      modifies this`children
      ensures children == RemoveFirst(old(children), c)
    {
      children := RemoveFirst(children, c);
    }

    /** Directory.findChild: the first child called n, or nothing. */
    function FindChild(n: string): (r: Option<FileSystemObject>)
      reads this`children, (set c | c in children)`name
      ensures r.None? <==> forall c :: c in children ==> c.name != n
      ensures r.Some? ==> r.value.name == n
      ensures r.Some? ==>
        exists i :: 0 <= i < |children| && children[i] == r.value &&
          forall j :: 0 <= j < i ==> children[j].name != n
    {
      var i := FirstNamed(children, n);
      if i < |children| then Some(children[i]) else None
    }

    /** File.getContents: None stands for the null of a file made without contents. */
    function GetContents(): Option<string>
      reads this`contents
    {
      contents
    }

    /** File.setContents. */
    method SetContents(newContents: string)
      requires !isDirectory
      modifies this`contents
      ensures GetContents() == Some(newContents)
    {
      contents := Some(newContents);
    }
  }

  /** The components of a path: String.split("/") with the empty pieces removed. */
  function PathComponents(path: string): seq<string>
  {
    NonEmpty(JavaSplit(path, '/'))
  }

  function NonEmpty(ps: seq<string>): (r: seq<string>)
    ensures forall k :: 0 <= k < |r| ==> r[k] != ""
  {
    if |ps| == 0 then []
    else if ps[0] == "" then NonEmpty(ps[1..])
    else [ps[0]] + NonEmpty(ps[1..])
  }

  lemma {:induction false} NonEmptyAppendEmpties(ps: seq<string>, empties: seq<string>)
    requires forall k :: 0 <= k < |empties| ==> empties[k] == ""
    ensures NonEmpty(ps + empties) == NonEmpty(ps)
  {
    if |ps| == 0 {
      assert ps + empties == empties;
      NonEmptyEmpties(empties);
    } else {
      assert (ps + empties)[1..] == ps[1..] + empties;
      NonEmptyAppendEmpties(ps[1..], empties);
    }
  }

  lemma {:induction false} NonEmptyEmpties(empties: seq<string>)
    requires forall k :: 0 <= k < |empties| ==> empties[k] == ""
    ensures NonEmpty(empties) == []
  {
    if |empties| > 0 {
      NonEmptyEmpties(empties[1..]);
    }
  }

  /** The split's dropping of trailing empty pieces does not matter once empty
      pieces are filtered out. */
  lemma PathComponentsAll(path: string)
    ensures PathComponents(path) == NonEmpty(SplitAll(path, '/'))
  {
    if '/' in path {
      var all := SplitAll(path, '/');
      var kept := DropTrailingEmpty(all);
      assert all == kept + all[|kept|..];
      NonEmptyAppendEmpties(kept, all[|kept|..]);
    } else {
      SplitAllNoSep(path, '/');
    }
  }

  /** A path of slashes only has no components. */
  lemma {:induction false} SlashesOnly(path: string)
    requires forall k :: 0 <= k < |path| ==> path[k] == '/'
    ensures NonEmpty(SplitAll(path, '/')) == []
  {
    if |path| > 0 {
      SlashesOnly(path[1..]);
      assert NonEmpty(SplitAll(path, '/')) == NonEmpty([""] + SplitAll(path[1..], '/')) by {
        assert SplitAll(path, '/') == [""] + SplitAll(path[1..], '/');
      }
      assert ([""] + SplitAll(path[1..], '/'))[1..] == SplitAll(path[1..], '/');
    }
  }

  /** A leading slash adds no component. */
  lemma LeadingSlash(path: string)
    ensures PathComponents("/" + path) == PathComponents(path)
  {
    PathComponentsAll("/" + path);
    PathComponentsAll(path);
    assert ("/" + path)[1..] == path;
    assert SplitAll("/" + path, '/') == [""] + SplitAll(path, '/');
    assert ([""] + SplitAll(path, '/'))[1..] == SplitAll(path, '/');
  }

  /** A non-empty slash-free name followed by "/" is the first component. */
  lemma LeadingComponent(w: string, path: string)
    requires w != "" && '/' !in w
    ensures PathComponents(w + "/" + path) == [w] + PathComponents(path)
  {
    PathComponentsAll(w + "/" + path);
    PathComponentsAll(path);
    assert w + "/" + path == w + ("/" + path);
    SplitAllPrefix(w, "/" + path, '/');
    assert ("/" + path)[1..] == path;
    assert SplitAll("/" + path, '/') == [""] + SplitAll(path, '/');
    var rest := SplitAll(path, '/');
    assert SplitAll("/" + path, '/')[0] == "" && SplitAll("/" + path, '/')[1..] == rest;
    assert w + "" == w;
    assert SplitAll(w + "/" + path, '/') == [w] + rest;
    assert ([w] + rest)[1..] == rest;
  }

  class FileSystemAPI {
    const root: FileSystemObject
    var currentDirectory: FileSystemObject
    /** The objects of this tree. */
    ghost var Repr: set<FileSystemObject>

    /** The tree is closed: parents and children of its objects are in it, every
        parent is a directory, and files have no children.  The parent clause is
        triggered on o.parent so that it is not re-applied to o.parent.parent. */
    ghost predicate Valid()
      reads this, Repr`parent, Repr`children
    {
      root in Repr && currentDirectory in Repr && root.isDirectory && currentDirectory.isDirectory &&
      (forall o {:trigger o.parent} :: o in Repr ==> o.parent != null && o.parent in Repr && o.parent.isDirectory) &&
      (forall o :: o in Repr && !o.isDirectory ==> o.children == []) &&
      (forall o, c :: o in Repr && c in o.children ==> c in Repr)
    }

    /** new FileSystemAPI(): a root directory called "root", which is also the
        current directory. */
    constructor ()
      ensures Valid() && Repr == {root}
      ensures root.name == "root" && root.parent == root && root.path == "/" && root.children == []
      ensures currentDirectory == root
    {
      var r := new FileSystemObject.Directory("root", null);
      root := r;
      currentDirectory := r;
      Repr := {r};
    }

    /** The walk of getFileSystemObject from directory wd at component i; ds says
        whether the path ended in "/". */
    ghost function ResolveFrom(wd: FileSystemObject, comps: seq<string>, i: nat, ds: bool): Option<FileSystemObject>
      requires Valid() && wd in Repr && wd.isDirectory && i < |comps|
      reads this, Repr`parent, Repr`children, Repr`name
      decreases |comps| - i
    {
      if i < |comps| - 1 then
        match comps[i]
        case "." => ResolveFrom(wd, comps, i + 1, ds)
        case ".." => ResolveFrom(wd.parent, comps, i + 1, ds)
        case _ =>
          (match wd.FindChild(comps[i])
           case None => None
           case Some(c) => if !c.isDirectory then None else ResolveFrom(c, comps, i + 1, ds))
      else
        match comps[i]
        case "." => Some(wd)
        case ".." => Some(wd.parent)
        case _ =>
          var found := wd.FindChild(comps[i]);
          if ds && (found.None? || !found.value.isDirectory) then None else found
    }

    /** What getFileSystemObject(path) finds. */
    ghost function Resolve(path: string): Option<FileSystemObject>
      requires Valid()
      reads this, Repr`parent, Repr`children, Repr`name
    {
      if |path| == 0 then None
      else
        var comps := PathComponents(path);
        if |comps| == 0 then Some(root)
        else ResolveFrom(if comps[0] == "." then currentDirectory else root, comps, 0, path[|path| - 1] == '/')
    }

    /** getFileSystemObject, proved against Resolve. */
    method GetFileSystemObject(path: string) returns (r: Option<FileSystemObject>)
      requires Valid()
      ensures r == Resolve(path)
    {
      if |path| == 0 {
        return None;
      }
      var directorySearch := false;
      if path[|path| - 1] == '/' {
        directorySearch := true;
      }
      var pathArgs := PathComponents(path);
      if |pathArgs| == 0 {
        return Some(root);
      }
      var workingDirectory: FileSystemObject;
      if pathArgs[0] == "." {
        workingDirectory := currentDirectory;
      } else {
        workingDirectory := root;
      }
      r := WalkFrom(workingDirectory, pathArgs, directorySearch);
    }

    /** The component loop of getFileSystemObject, from directory
        workingDirectory, proved against ResolveFrom. */
    method WalkFrom(workingDirectory: FileSystemObject, pathArgs: seq<string>, directorySearch: bool)
      returns (r: Option<FileSystemObject>)
      requires Valid() && workingDirectory in Repr && workingDirectory.isDirectory && |pathArgs| > 0
      ensures r == ResolveFrom(workingDirectory, pathArgs, 0, directorySearch)
    {
      ghost var target := ResolveFrom(workingDirectory, pathArgs, 0, directorySearch);
      var wd := workingDirectory;
      var i := 0;
      while i < |pathArgs|
        invariant 0 <= i < |pathArgs|
        invariant wd in Repr && wd.isDirectory
        invariant ResolveFrom(wd, pathArgs, i, directorySearch) == target
        decreases |pathArgs| - i
      {
        if i < |pathArgs| - 1 {
          match pathArgs[i] {
            case "." =>
            case ".." =>
              wd := wd.parent;
            case _ =>
              var optionalFSO := wd.FindChild(pathArgs[i]);
              if optionalFSO.None? || !optionalFSO.value.isDirectory {
                return None;
              }
              wd := optionalFSO.value;
          }
        } else {
          match pathArgs[i] {
            case "." =>
              return Some(wd);
            case ".." =>
              return Some(wd.parent);
            case _ =>
              var foundObject := wd.FindChild(pathArgs[i]);
              if directorySearch && (foundObject.None? || !foundObject.value.isDirectory) {
                return None;
              }
              return wd.FindChild(pathArgs[i]);
          }
        }
        i := i + 1;
      }
      // The last component always returns, so the final return is never reached.
      assert false;
    }

    /** The directory a path names, when it names one. */
    ghost function DirectoryAt(path: string): (r: Option<FileSystemObject>)
      requires Valid()
      reads this, Repr`parent, Repr`children, Repr`name
      ensures r.Some? ==> r.value.isDirectory
    {
      var found := Resolve(path);
      if found.Some? && found.value.isDirectory then found else None
    }

    /** The guard every create method applies to its parent directory: a
        non-empty name that no child of parent carries yet. */
    ghost predicate CanCreate(parent: FileSystemObject, name: string)
      reads parent`children, (set c | c in parent.children)`name
    {
      name != "" && parent.FindChild(name) == None
    }

    /** No two children of d carry the same name. */
    ghost predicate UniqueNames(d: FileSystemObject)
      reads d`children, (set c | c in d.children)`name
    {
      forall i, j :: 0 <= i < j < |d.children| ==> d.children[i].name != d.children[j].name
    }

    /** The state a successful create leaves behind: exactly one fresh object,
        with the given name, kind and contents, appended to parent's children
        and added to the tree; findChild now finds it; names stay unique. */
    twostate predicate Inserted(parent: FileSystemObject, name: string, isDir: bool, contents: Option<string>)
      reads this, parent, (set c | c in parent.children)
    {
      |parent.children| == |old(parent.children)| + 1 &&
      parent.children[..|old(parent.children)|] == old(parent.children) &&
      var f := parent.children[|old(parent.children)|];
      fresh(f) && Repr == old(Repr) + {f} &&
      f.isDirectory == isDir && f.name == name && f.parent == parent &&
      f.children == [] && f.contents == contents &&
      f.path == ChildPath(parent.parent == parent, parent.path, name) &&
      parent.FindChild(name) == Some(f) &&
      (old(UniqueNames(parent)) ==> UniqueNames(parent))
    }

    /** The shared tail of the create methods: construct the object under parent
        and addChild it. */
    method AddNew(name: string, parent: FileSystemObject, isDir: bool, contents: Option<string>)
      requires Valid() && parent in Repr && parent.isDirectory && CanCreate(parent, name)
      requires isDir ==> contents == None
      modifies this`Repr, parent`children
      ensures Valid() && Inserted(parent, name, isDir, contents)
    {
      ghost var wasUnique := UniqueNames(parent);
      var f := Construct(name, parent, isDir, contents);
      assert UniqueNames(parent) == wasUnique;
      assert FirstNamed(parent.children, name) == |parent.children|;
      Attach(parent, f);
      assert parent.children[..|old(parent.children)|] == old(parent.children);
      assert parent.children[|old(parent.children)|] == f;
    }

    /** new Directory(name, parent), new File(name, parent) or
        new File(name, parent, contents). */
    static method Construct(name: string, parent: FileSystemObject, isDir: bool, contents: Option<string>)
      returns (f: FileSystemObject)
      requires parent.isDirectory
      requires isDir ==> contents == None
      ensures fresh(f)
      ensures f.isDirectory == isDir && f.name == name && f.parent == parent
      ensures f.children == [] && f.contents == contents
      ensures f.path == ChildPath(parent.parent == parent, parent.path, name)
    {
      if isDir {
        f := new FileSystemObject.Directory(name, parent);
      } else if contents.None? {
        f := new FileSystemObject.File(name, parent);
      } else {
        f := new FileSystemObject.FileWithContents(name, parent, contents.value);
      }
    }

    /** parent.addChild(f) for a new object f whose name is not taken in parent. */
    method Attach(parent: FileSystemObject, f: FileSystemObject)
      requires Valid() && parent in Repr && parent.isDirectory && f !in Repr
      requires f.parent == parent && f.children == []
      requires FirstNamed(parent.children, f.name) == |parent.children|
      modifies this`Repr, parent`children
      ensures Valid() && Repr == old(Repr) + {f}
      ensures parent.children == old(parent.children) + [f]
      ensures parent.FindChild(f.name) == Some(f)
      ensures old(UniqueNames(parent)) ==> UniqueNames(parent)
    {
      ghost var before := parent.children;
      FindAfterAdd(before, f);
      parent.AddChild(f);
      Repr := Repr + {f};
      assert Valid();
      assert forall k :: 0 <= k < |before| ==> before[k].name != f.name;
    }

    /** createFile(String, Directory). */
    method CreateFile(name: string, parent: FileSystemObject?) returns (ok: bool)
      requires Valid()
      requires parent != null ==> parent in Repr && parent.isDirectory
      modifies this`Repr, (if parent == null then {} else {parent})`children
      ensures Valid()
      ensures ok == (parent != null && old(CanCreate(parent, name)))
      ensures ok ==> Inserted(parent, name, false, None)
      ensures !ok ==> Repr == old(Repr) && (parent != null ==> unchanged(parent))
    {
      if parent == null || name == "" {
        return false;
      }
      if parent.FindChild(name).Some? {
        return false;
      }
      AddNew(name, parent, false, None);
      return true;
    }

    /** createFile(String, String). */
    method CreateFileAt(name: string, parentPath: string) returns (ok: bool)
      requires Valid()
      modifies this`Repr, Repr`children
      ensures Valid()
      ensures ok == (old(DirectoryAt(parentPath)).Some? && old(CanCreate(DirectoryAt(parentPath).value, name)))
      ensures ok ==>
                var p := old(DirectoryAt(parentPath)).value;
                Inserted(p, name, false, None) && forall o :: o in old(Repr) && o != p ==> unchanged(o)
      ensures !ok ==> Repr == old(Repr) && unchanged(Repr)
    {
      var parentOptional := GetFileSystemObject(parentPath);
      if parentOptional.None? || !parentOptional.value.isDirectory || name == "" {
        return false;
      }
      var parent := parentOptional.value;
      ResolveFacts(parentPath);
      if parent.FindChild(name).Some? {
        return false;
      }
      AddNew(name, parent, false, None);
      return true;
    }

    /** createFile(String, Directory, String). */
    method CreateFileWithContents(name: string, parent: FileSystemObject?, contents: string) returns (ok: bool)
      requires Valid()
      requires parent != null ==> parent in Repr && parent.isDirectory
      modifies this`Repr, (if parent == null then {} else {parent})`children
      ensures Valid()
      ensures ok == (parent != null && old(CanCreate(parent, name)))
      ensures ok ==> Inserted(parent, name, false, Some(contents))
      ensures !ok ==> Repr == old(Repr) && (parent != null ==> unchanged(parent))
    {
      if parent == null || name == "" {
        return false;
      }
      if parent.FindChild(name).Some? {
        return false;
      }
      AddNew(name, parent, false, Some(contents));
      return true;
    }

    /** createFile(String, String, String). */
    method CreateFileWithContentsAt(name: string, parentPath: string, contents: string) returns (ok: bool)
      requires Valid()
      modifies this`Repr, Repr`children
      ensures Valid()
      ensures ok == (old(DirectoryAt(parentPath)).Some? && old(CanCreate(DirectoryAt(parentPath).value, name)))
      ensures ok ==>
                var p := old(DirectoryAt(parentPath)).value;
                Inserted(p, name, false, Some(contents)) && forall o :: o in old(Repr) && o != p ==> unchanged(o)
      ensures !ok ==> Repr == old(Repr) && unchanged(Repr)
    {
      var parentOptional := GetFileSystemObject(parentPath);
      if parentOptional.None? || !parentOptional.value.isDirectory || name == "" {
        return false;
      }
      var parent := parentOptional.value;
      ResolveFacts(parentPath);
      if parent.FindChild(name).Some? {
        return false;
      }
      AddNew(name, parent, false, Some(contents));
      return true;
    }

    /** createDirectory(String, Directory). */
    method CreateDirectory(name: string, parent: FileSystemObject?) returns (ok: bool)
      requires Valid()
      requires parent != null ==> parent in Repr && parent.isDirectory
      modifies this`Repr, (if parent == null then {} else {parent})`children
      ensures Valid()
      ensures ok == (parent != null && old(CanCreate(parent, name)))
      ensures ok ==> Inserted(parent, name, true, None)
      ensures !ok ==> Repr == old(Repr) && (parent != null ==> unchanged(parent))
    {
      if parent == null || name == "" {
        return false;
      }
      if parent.FindChild(name).Some? {
        return false;
      }
      AddNew(name, parent, true, None);
      return true;
    }

    /** createDirectory(String, String). */
    method CreateDirectoryAt(name: string, parentPath: string) returns (ok: bool)
      requires Valid()
      modifies this`Repr, Repr`children
      ensures Valid()
      ensures ok == (old(DirectoryAt(parentPath)).Some? && old(CanCreate(DirectoryAt(parentPath).value, name)))
      ensures ok ==>
                var p := old(DirectoryAt(parentPath)).value;
                Inserted(p, name, true, None) && forall o :: o in old(Repr) && o != p ==> unchanged(o)
      ensures !ok ==> Repr == old(Repr) && unchanged(Repr)
    {
      var parentOptional := GetFileSystemObject(parentPath);
      if parentOptional.None? || !parentOptional.value.isDirectory || name == "" {
        return false;
      }
      var parent := parentOptional.value;
      ResolveFacts(parentPath);
      if parent.FindChild(name).Some? {
        return false;
      }
      AddNew(name, parent, true, None);
      return true;
    }

    /** The state updateParent leaves behind: fso is cut out of the children of
        its old parent (first occurrence) and appended to newParent's, its parent
        is newParent and only its own path is recomputed, from newParent's stored
        path. */
    twostate predicate Reparented(fso: FileSystemObject, oldParent: FileSystemObject, newParent: FileSystemObject)
      reads fso, oldParent, newParent
    {
      (oldParent != newParent ==> oldParent.children == RemoveFirst(old(oldParent.children), fso)) &&
      newParent.children ==
        (if oldParent == newParent then RemoveFirst(old(newParent.children), fso) else old(newParent.children)) + [fso] &&
      fso.parent == newParent &&
      fso.path == ChildPath(newParent.parent == newParent, old(newParent.path), fso.name)
    }

    /** updateParent. */
    method UpdateParent(fso: FileSystemObject, newParent: FileSystemObject)
      requires Valid() && fso in Repr && newParent in Repr && newParent.isDirectory
      modifies fso.parent`children, newParent`children, fso`parent, fso`path
      ensures Valid() && Repr == old(Repr)
      ensures old(fso.parent) != null && Reparented(fso, old(fso.parent), newParent)
      ensures forall o :: o in Repr && o != fso ==> o.parent == old(o.parent) && o.path == old(o.path)
      ensures forall o :: o in Repr && o != old(fso.parent) && o != newParent ==> o.children == old(o.children)
    {
      var oldParent := fso.parent;
      oldParent.RemoveChild(fso);
      newParent.AddChild(fso);
      fso.SetParent(newParent);
      fso.UpdatePath();
    }

    /** moveFSO: no check against moving a directory into itself or its own
        subtree, and none against a name already taken in the destination. */
    method MoveFSO(movedPath: string, newLocationPath: string) returns (ok: bool)
      requires Valid()
      modifies Repr`children, Repr`parent, Repr`path
      ensures Valid() && Repr == old(Repr)
      ensures ok == (old(Resolve(movedPath)).Some? && old(DirectoryAt(newLocationPath)).Some?)
      ensures !ok ==> unchanged(Repr)
      ensures ok ==> old(Resolve(movedPath)).value in old(Repr) && old(DirectoryAt(newLocationPath)).value in old(Repr)
      ensures ok ==>
                var fso := old(Resolve(movedPath)).value;
                var oldParent := old(fso.parent);
                var newParent := old(DirectoryAt(newLocationPath)).value;
                oldParent != null && Reparented(fso, oldParent, newParent) &&
                (forall o :: o in Repr && o != fso ==> o.parent == old(o.parent) && o.path == old(o.path)) &&
                (forall o :: o in Repr && o != oldParent && o != newParent ==> o.children == old(o.children))
    {
      var optionalMovedFSO := GetFileSystemObject(movedPath);
      var optionalNewDirectory := GetFileSystemObject(newLocationPath);
      if optionalMovedFSO.None? || optionalNewDirectory.None? {
        return false;
      }
      var movedFSO := optionalMovedFSO.value;
      var newDirectory := optionalNewDirectory.value;
      if !newDirectory.isDirectory {
        return false;
      }
      ResolveFacts(movedPath);
      ResolveFacts(newLocationPath);
      assert old(Resolve(movedPath)) == Some(movedFSO);
      assert old(DirectoryAt(newLocationPath)) == Some(newDirectory);
      UpdateParent(movedFSO, newDirectory);
      return true;
    }

    /** moveCurrentDirectory. */
    method MoveCurrentDirectory(path: string) returns (ok: bool)
      requires Valid()
      modifies this`currentDirectory
      ensures Valid()
      ensures ok == old(DirectoryAt(path)).Some?
      ensures ok ==> currentDirectory == old(DirectoryAt(path)).value
      ensures !ok ==> currentDirectory == old(currentDirectory)
    {
      var newDirectoryOptional := GetFileSystemObject(path);
      if newDirectoryOptional.None? || !newDirectoryOptional.value.isDirectory {
        return false;
      }
      ResolveFacts(path);
      currentDirectory := newDirectoryOptional.value;
      return true;
    }

    /** The walk only ever reaches objects of the tree, and when the path ended
        in "/" only directories. */
    lemma {:induction false} ResolveFromFacts(wd: FileSystemObject, comps: seq<string>, i: nat, ds: bool)
      requires Valid() && wd in Repr && wd.isDirectory && i < |comps|
      ensures var r := ResolveFrom(wd, comps, i, ds);
        r.Some? ==> r.value in Repr && (ds ==> r.value.isDirectory)
      decreases |comps| - i
    {
      if i < |comps| - 1 {
        match comps[i]
        case "." => ResolveFromFacts(wd, comps, i + 1, ds);
        case ".." => ResolveFromFacts(wd.parent, comps, i + 1, ds);
        case _ =>
          match wd.FindChild(comps[i])
          case None =>
          case Some(c) =>
            if c.isDirectory {
              ResolveFromFacts(c, comps, i + 1, ds);
            }
      }
    }

    /** What a path resolves to is an object of the tree, and a path ending in
        "/" never resolves to a file. */
    lemma ResolveFacts(path: string)
      requires Valid()
      ensures Resolve(path).Some? ==> Resolve(path).value in Repr
      ensures |path| > 0 && path[|path| - 1] == '/' && Resolve(path).Some? ==> Resolve(path).value.isDirectory
    {
      var comps := PathComponents(path);
      if |path| > 0 && |comps| > 0 {
        ResolveFromFacts(if comps[0] == "." then currentDirectory else root, comps, 0, path[|path| - 1] == '/');
      }
    }

    /** The empty path resolves to nothing, and a non-empty path of slashes only
        ("/", "////") to the root. */
    lemma ResolveSlashes(path: string)
      requires Valid()
      requires forall k :: 0 <= k < |path| ==> path[k] == '/'
      ensures Resolve(path) == if |path| == 0 then None else Some(root)
    {
      PathComponentsAll(path);
      SlashesOnly(path);
    }

    /** A path that does not start with the component "." is resolved from the
        root: it resolves exactly as the same path with a leading "/". */
    lemma ResolveRelative(path: string)
      requires Valid() && |path| > 0
      requires PathComponents(path) == [] || PathComponents(path)[0] != "."
      ensures Resolve(path) == Resolve("/" + path)
    {
      LeadingSlash(path);
      assert ("/" + path)[|"/" + path| - 1] == path[|path| - 1];
    }

    /** "." alone (or "./", ".//") names the current directory. */
    lemma ResolveCurrent(path: string)
      requires Valid() && |path| > 0
      requires PathComponents(path) == ["."]
      ensures Resolve(path) == Some(currentDirectory)
    {
    }

    /** A leading "./" starts the walk at the current directory: the rest of
        the path is walked from there. */
    lemma ResolveDot(path: string)
      requires Valid() && |path| > 0 && PathComponents(path) != []
      ensures Resolve("./" + path) == ResolveFrom(currentDirectory, PathComponents(path), 0, path[|path| - 1] == '/')
    {
      var comps := PathComponents(path);
      var ds := path[|path| - 1] == '/';
      assert "./" + path == "." + "/" + path;
      LeadingComponent(".", path);
      assert ("./" + path)[|"./" + path| - 1] == path[|path| - 1];
      assert (["."] + comps)[0] == ".";
      assert ResolveFrom(currentDirectory, ["."] + comps, 0, ds) == ResolveFrom(currentDirectory, ["."] + comps, 1, ds);
      ResolveFromShift(currentDirectory, ".", comps, 0, ds);
    }

    /** While the root is its own parent, a leading "../" at the root changes
        nothing: "../p" names what p names, for any p whose first component is
        not ".". */
    lemma ResolveUpFromRoot(path: string)
      requires Valid() && root.parent == root && |path| > 0
      requires PathComponents(path) != [] && PathComponents(path)[0] != "."
      ensures Resolve("../" + path) == Resolve(path)
    {
      var comps := PathComponents(path);
      var ds := path[|path| - 1] == '/';
      assert "../" + path == ".." + "/" + path;
      LeadingComponent("..", path);
      assert ("../" + path)[|"../" + path| - 1] == path[|path| - 1];
      assert ([".."] + comps)[0] == "..";
      assert ResolveFrom(root, [".."] + comps, 0, ds) == ResolveFrom(root, [".."] + comps, 1, ds);
      ResolveFromShift(root, "..", comps, 0, ds);
    }

    /** Putting a component in front and starting one later walks the same way. */
    lemma {:induction false} ResolveFromShift(wd: FileSystemObject, c: string, comps: seq<string>, i: nat, ds: bool)
      requires Valid() && wd in Repr && wd.isDirectory && i < |comps|
      ensures ResolveFrom(wd, [c] + comps, i + 1, ds) == ResolveFrom(wd, comps, i, ds)
      decreases |comps| - i
    {
      assert ([c] + comps)[i + 1] == comps[i];
      if i < |comps| - 1 {
        if comps[i] == "." {
          ResolveFromShift(wd, c, comps, i + 1, ds);
        } else if comps[i] == ".." {
          ResolveFromShift(wd.parent, c, comps, i + 1, ds);
        } else {
          var found := wd.FindChild(comps[i]);
          if found.Some? && found.value.isDirectory {
            ResolveFromShift(found.value, c, comps, i + 1, ds);
          }
        }
      }
    }

    /** ".." names the parent, which is the root itself while the root is still
        its own parent. */
    lemma ResolveParentOfRoot(path: string)
      requires Valid() && |path| > 0 && root.parent == root
      requires PathComponents(path) == [".."] || PathComponents(path) == [".", ".."]
      ensures PathComponents(path) == [".."] ==> Resolve(path) == Some(root)
      ensures PathComponents(path) == [".", ".."] ==> Resolve(path) == Some(currentDirectory.parent)
    {
      var comps := PathComponents(path);
      if comps == [".", ".."] {
        var ds := path[|path| - 1] == '/';
        assert comps[1] == "..";
        assert ResolveFrom(currentDirectory, comps, 1, ds) == Some(currentDirectory.parent);
        assert ResolveFrom(currentDirectory, comps, 0, ds) == ResolveFrom(currentDirectory, comps, 1, ds);
      }
    }

    /** A non-final component that names no child, or names a file, makes the
        whole path fail. */
    lemma ResolveFromMissing(wd: FileSystemObject, comps: seq<string>, i: nat, ds: bool)
      requires Valid() && wd in Repr && wd.isDirectory && i < |comps| - 1
      requires comps[i] != "." && comps[i] != ".."
      requires wd.FindChild(comps[i]).None? || !wd.FindChild(comps[i]).value.isDirectory
      ensures ResolveFrom(wd, comps, i, ds) == None
    {
    }
  }
}
