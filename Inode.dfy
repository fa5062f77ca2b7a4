/** The permission and file-type part of jbash.filesystem.Inode: a nine-letter
    permission string such as "rw-r--r--" becomes owner, group and other
    permission triples. */
module Inode {
  import opened Outcomes

  datatype FileType = File | Directory

  datatype Permission = Permission(r: bool, w: bool, x: bool)

  datatype FilePerms = FilePerms(owner: Permission, group: Permission, other: Permission)

  const InvalidPermString: string := "Invalid permission string: " + "Expected 9 characters matching regex [r|w|x|-]"

  /** The flag that character k of a permission string sets: 0-2 owner, 3-5
      group, 6-8 other, each in r, w, x order. */
  function FlagAt(p: FilePerms, k: nat): bool
    requires k < 9
  {
    var t := if k < 3 then p.owner else if k < 6 then p.group else p.other;
    match k % 3
    case 0 => t.r
    case 1 => t.w
    case _ => t.x
  }

  /** parsePerms: anything but exactly nine characters is refused (the
      RuntimeException); otherwise each flag is set exactly when its character
      is not '-'. */
  function ParsePerms(s: string): (r: Result<FilePerms>)
    ensures r.Ok? <==> |s| == 9
    ensures r.Err? ==> r.errorMessage == InvalidPermString
    ensures r.Ok? ==> forall k :: 0 <= k < 9 ==> FlagAt(r.value, k) == (s[k] != '-')
    ensures !r.OutOfBounds?
  {
    if |s| != 9 then Err(InvalidPermString)
    else Ok(FilePerms(Permission(s[0] != '-', s[1] != '-', s[2] != '-'),
                      Permission(s[3] != '-', s[4] != '-', s[5] != '-'),
                      Permission(s[6] != '-', s[7] != '-', s[8] != '-')))
  }

  /** The "rwxrwxrwx" spelling of a permission record. */
  function PermString(p: FilePerms): (r: string)
    ensures |r| == 9
  {
    Letters(p.owner) + Letters(p.group) + Letters(p.other)
  }

  function Letters(t: Permission): string
  {
    [if t.r then 'r' else '-', if t.w then 'w' else '-', if t.x then 'x' else '-']
  }

  /** Parsing the spelling of a record gives the record back. */
  lemma ParsePermString(p: FilePerms)
    ensures ParsePerms(PermString(p)) == Ok(p)
  {
    var s := PermString(p);
    assert s == Letters(p.owner) + Letters(p.group) + Letters(p.other);
    assert s[0] == Letters(p.owner)[0] && s[1] == Letters(p.owner)[1] && s[2] == Letters(p.owner)[2];
    assert s[3] == Letters(p.group)[0] && s[4] == Letters(p.group)[1] && s[5] == Letters(p.group)[2];
    assert s[6] == Letters(p.other)[0] && s[7] == Letters(p.other)[1] && s[8] == Letters(p.other)[2];
  }

  /** Only the positions of '-' matter: the letters r, w and x are never checked,
      so any two nine-character strings with their dashes in the same places
      parse alike. */
  lemma OnlyDashesMatter(s: string, t: string)
    requires |s| == 9 && |t| == 9
    requires forall k :: 0 <= k < 9 ==> (s[k] == '-' <==> t[k] == '-')
    ensures ParsePerms(s) == ParsePerms(t)
  {
    assert s[0] == '-' <==> t[0] == '-';
    assert s[1] == '-' <==> t[1] == '-';
    assert s[2] == '-' <==> t[2] == '-';
    assert s[3] == '-' <==> t[3] == '-';
    assert s[4] == '-' <==> t[4] == '-';
    assert s[5] == '-' <==> t[5] == '-';
    assert s[6] == '-' <==> t[6] == '-';
    assert s[7] == '-' <==> t[7] == '-';
    assert s[8] == '-' <==> t[8] == '-';
  }

  /** The default permissions of an inode: owner read and write, group and
      other read only. */
  lemma DefaultPerms(s: string)
    requires s == "rw-r--r--"
    ensures ParsePerms(s) == Ok(FilePerms(Permission(true, true, false),
                                          Permission(true, false, false),
                                          Permission(true, false, false)))
  {
  }

  /** getFileType: 1 for a file, 2 for a directory. */
  function GetFileType(filetype: FileType): (r: int)
    ensures r == 1 <==> filetype.File?
    ensures r == 2 <==> filetype.Directory?
  {
    if filetype == File then 1 else 2
  }
}
