/** The tree the user sees (src/surffs_inode.c): name lookup in a page's directory, the
    listing of a directory by position, and reading the special files.

    Every directory stands for a web page. It holds four special files (the page body, its
    URL, its fetch status and the log of its link check) and one sub-directory per
    accepted link, named by the link's title. A sub-directory whose page already has a
    directory elsewhere in the tree is shown as a symbolic link to it instead. */
module Inode {
  import opened Base
  import opened Helpers
  import opened WebTypes
  import opened Socket
  import opened WebPages
  import opened Dentry
  import opened Sb
  import opened InodeTypes

  // ---------------------------------------------------------------------------------
  // special_files

  /** `special_files`, in table order. */
  const SPECIAL_FILES: seq<(String, InodeType)> :=
    [("page.html", FilePage), ("url", FileUrl), ("status", FileStatus), ("loading.log", FileLog)]

  /** `SPECIAL_FILES_COUNT`: the entries before the table's terminator. */
  const SPECIAL_FILES_COUNT: nat := |SPECIAL_FILES|

  /** The kind of the first table entry from `i` on named `name`. */
  function SpecialFrom(name: String, i: nat): (r: Option<InodeType>)
    requires i <= |SPECIAL_FILES|
    decreases |SPECIAL_FILES| - i
  {
    if i == |SPECIAL_FILES| then None
    else if SPECIAL_FILES[i].0 == name then Some(SPECIAL_FILES[i].1)
    else SpecialFrom(name, i + 1)
  }

  /** What the table says about `name`: a special file of some kind, or nothing. */
  function SpecialType(name: String): Option<InodeType>
  {
    SpecialFrom(name, 0)
  }

  /** The table holds exactly four names, each with its own kind. */
  lemma SpecialFilesTable(name: String)
    ensures SPECIAL_FILES_COUNT == 4
    ensures SpecialType(name) ==
              if name == "page.html" then Some(FilePage)
              else if name == "url" then Some(FileUrl)
              else if name == "status" then Some(FileStatus)
              else if name == "loading.log" then Some(FileLog)
              else None
  {
    assert SpecialFrom(name, 4) == None;
  }

  /** The table walk of `surffs_lookup`: the first entry whose name equals `name`. */
  method FindSpecialFile(name: String) returns (t: Option<InodeType>)
    ensures t == SpecialType(name)
  {
    var i := 0;
    while i < SPECIAL_FILES_COUNT
      invariant 0 <= i <= SPECIAL_FILES_COUNT
      invariant SpecialType(name) == SpecialFrom(name, i)
    {
      if SPECIAL_FILES[i].0 == name {
        return Some(SPECIAL_FILES[i].1);
      }
      i := i + 1;
    }
    return None;
  }

  // ---------------------------------------------------------------------------------
  // get_file_size, define_reading_source

  /** `get_file_size`: the size a special file of kind `t` is created with. */
  function FileSize(t: InodeType, page: WebPage): int
    reads page
  {
    match t
    case FileUrl => |page.fullUrl|
    case FileStatus => |page.statusStr|
    case FilePage => if page.payload.Some? then |page.httpResp| - page.payload.value else 0
    case FileLog => |page.log|
    case _ => 0
  }

  /** The text a C string function sees: everything before the first NUL. */
  function UntilNul(s: String): (r: String)
    ensures |r| <= |s| && r == s[..|r|] && '\0' !in r
    ensures |r| < |s| ==> s[|r|] == '\0'
  {
    if s == [] || s[0] == '\0' then [] else [s[0]] + UntilNul(s[1..])
  }

  /** What `define_reading_source` finds to read: an error code, no source at all, or a
      text. */
  datatype ReadSource = SourceError(err: int) | NoSource | SourceText(text: String)

  /** `define_reading_source`: the text behind each special file. The page body is read as
      a C string, so it ends at its first NUL. */
  function ReadingSource(page: WebPage?, t: InodeType): ReadSource
    reads page
    requires page != null ==> page.Valid()
  {
    if page == null then SourceError(EINVAL)
    else
      match t
      case FileUrl => SourceText(page.fullUrl)
      case FileLog => SourceText(page.log)
      case FilePage => if page.payload.Some? then SourceText(UntilNul(page.Body())) else NoSource
      case FileStatus => SourceText(page.statusStr)
      case _ => SourceError(EINVAL)
  }

  /** The size a special file is created with is the length of what reading it finds,
      except that the page is cut at its first NUL when read: then it is shorter. */
  lemma FileSizeOfSource(t: InodeType, page: WebPage)
    requires page.Valid()
    ensures t == FileUrl || t == FileStatus || t == FileLog ==>
              ReadingSource(page, t).SourceText? && |ReadingSource(page, t).text| == FileSize(t, page)
    ensures t == FilePage && page.payload.None? ==> ReadingSource(page, t) == NoSource && FileSize(t, page) == 0
    ensures t == FilePage && page.payload.Some? ==>
              && ReadingSource(page, t).SourceText?
              && |ReadingSource(page, t).text| <= FileSize(t, page)
              && (|ReadingSource(page, t).text| == FileSize(t, page) <==> '\0' !in page.Body())
    ensures t == Unknown || t == Link || t == Dir ==> ReadingSource(page, t).SourceError?
  {
    if t == FilePage && page.payload.Some? {
      var b := page.Body();
      assert |b| == |page.httpResp| - page.payload.value;
      assert b[..|b|] == b;
    }
  }

  /** `define_reading_source` with its out-parameters as results. */
  method DefineReadingSource(page: WebPage?, t: InodeType) returns (ret: int, source: Option<String>)
    requires page != null ==> page.Valid()
    ensures ReadingSource(page, t).SourceError? ==> ret == ReadingSource(page, t).err && source.None?
    ensures ReadingSource(page, t) == NoSource ==> ret == 0 && source.None?
    ensures ReadingSource(page, t).SourceText? ==> ret == 0 && source == Some(ReadingSource(page, t).text)
  {
    if page == null {
      return EINVAL, None;
    }
    source := None;
    if t == FileUrl {
      source := Some(page.fullUrl);
    } else if t == FileLog {
      source := Some(page.log);
    } else if t == FilePage {
      if page.payload.Some? {
        var body := page.httpResp[page.payload.value..];
        source := Some(UntilNul(body));
      }
    } else if t == FileStatus {
      source := Some(page.statusStr);
    } else {
      return EINVAL, None;
    }
    ret := 0;
  }

  // ---------------------------------------------------------------------------------
  // get_webpath_by_dentry_name, obtain_inode_webpage

  /** The path of the first link, in list order, titled `name`. */
  function LinkPath(links: seq<HtmlLink>, name: String): Option<String>
  {
    if links == [] then None
    else if links[0].title == name then Some(links[0].path)
    else LinkPath(links[1..], name)
  }

  /** A link path is found exactly when some link has the title, and it is the path of the
      first such link. */
  lemma {:induction false} LinkPathFirst(links: seq<HtmlLink>, name: String)
    ensures LinkPath(links, name).None? <==> forall i :: 0 <= i < |links| ==> links[i].title != name
    ensures LinkPath(links, name).Some? ==>
              exists i :: 0 <= i < |links| && links[i].title == name && links[i].path == LinkPath(links, name).value
                          && forall j :: 0 <= j < i ==> links[j].title != name
  {
    if links != [] && links[0].title != name {
      LinkPathFirst(links[1..], name);
      if LinkPath(links, name).Some? {
        var i :| 0 <= i < |links[1..]| && links[1..][i].title == name
                 && links[1..][i].path == LinkPath(links, name).value
                 && forall j :: 0 <= j < i ==> links[1..][j].title != name;
        assert links[i + 1] == links[1..][i];
        forall j | 0 <= j < i + 1
          ensures links[j].title != name
        {
          if j > 0 {
            assert links[j] == links[1..][j - 1];
          }
        }
      }
    }
  }

  /** `get_webpath_by_dentry_name`: a directory without a page is refused; otherwise its
      links are walked in list order and the first one titled `name` gives its path. No
      match is not an error. */
  method GetWebpathByDentryName(dir: SurfInode, name: String) returns (ret: int, webpath: Option<String>)
    ensures dir.webpage == null ==> ret == EINVAL && webpath.None?
    ensures dir.webpage != null ==> ret == 0 && webpath == LinkPath(dir.webpage.links, name)
  {
    var page := dir.webpage;
    if page == null {
      return EINVAL, None;
    }
    var links := page.links;
    var i := 0;
    while i < |links|
      invariant 0 <= i <= |links|
      invariant LinkPath(links, name) == LinkPath(links[i..], name)
    {
      assert links[i..][1..] == links[i + 1..];
      if links[i].title == name {
        return 0, Some(links[i].path);
      }
      i := i + 1;
    }
    return 0, None;
  }

  /** Where a directory's page is fetched from: the mount's ip and host, and the
      directory's own web path. */
  function PageAddress(root: WebAddress, webPath: String): WebAddress
  {
    WebAddress(root.ip, root.host, webPath)
  }

  /** `obtain_inode_webpage`: a directory without a web path is refused; otherwise its page
      is taken from the page cache, fetched if it is not there, and set on the inode. */
  method ObtainInodeWebpage(inode: SurfInode, fsi: SuperInfo, cache: PageCache, net: NetOutcome)
    returns (ret: int)
    requires inode.Valid()
    modifies inode`webpage, cache
    ensures inode.webPath.textlen == 0 ==>
              ret == EINVAL && inode.webpage == old(inode.webpage) && cache.pages == old(cache.pages)
    ensures old(cache.Unique()) ==> cache.Unique()
    ensures ret != 0 ==> inode.webpage == old(inode.webpage) && cache.pages == old(cache.pages)
    ensures ret == 0 ==> && inode.webPath.textlen > 0 && inode.webpage != null
                         && inode.webpage in cache.pages
                         && inode.webpage.address == PageAddress(fsi.rootAddress, inode.webPath.Text())
    ensures ret == 0 && (exists i :: 0 <= i < |old(cache.pages)| && old(cache.pages)[i] == inode.webpage) ==>
              cache.pages == old(cache.pages)
  {
    if inode.webPath.textlen == 0 {
      return EINVAL;
    }
    var address := PageAddress(fsi.rootAddress, inode.webPath.Text());
    var page;
    ret, page := cache.Get(address, net);
    if ret != 0 {
      return;
    }
    inode.webpage := page;
  }

  // ---------------------------------------------------------------------------------
  // surffs_lookup

  /** The tree path of the dentry `name` inside the directory with `chain`. */
  function DentryTreePath(chain: seq<String>, name: String): String
  {
    ReversedPath(Collected(chain + [name]))
  }

  /** The target a symbolic link in the directory with `chain` is given for a page already
      shown at `recorded`: up to the mount root, then down the recorded path. */
  function LinkTarget(chain: seq<String>, recorded: String): String
  {
    PathToRoot(|chain|) + recorded
  }

  /** A name path resolution takes as one step down: not empty, no '/', not "." or "..". */
  predicate PlainName(name: String)
  {
    name != [] && NoSlash(name) && name != "." && name != ".."
  }

  /** What the ledger records for the dentry with `chain`: "/" for the mount root, the tree
      path below it. */
  function Recorded(chain: seq<String>): (r: String)
    ensures (forall i :: 0 <= i < |chain| ==> chain[i] != []) ==> |r| > 0 && r[0] == '/'
  {
    if chain == [] then "/" else TreePath(chain)
  }

  /** The ledger records a new directory at the tree path of its dentry. */
  lemma DentryTreePathRecorded(chain: seq<String>, name: String)
    requires forall i :: 0 <= i < |chain| ==> PlainName(chain[i])
    requires PlainName(name)
    ensures DentryTreePath(chain, name) == Recorded(chain + [name])
  {
    ReversedCollected(chain + [name]);
  }

  /** Where a relative symbolic link target leads from the directory with `chain`: "../"
      and ".." go up one level, "./" and "." stay, and what is left names directories going
      down. None when the target leaves the mount: it starts with '/', which path resolution
      reads from the root of the whole file system, or it climbs above the mount root. */
  function Resolve(chain: seq<String>, t: String): Option<seq<String>>
    decreases |t|
  {
    if t == [] then Some(chain)
    else if t[0] == '/' then None
    else if t[0] == '.' && |t| >= 3 && t[1] == '.' && t[2] == '/' then  // "../"
      (if chain == [] then None else Resolve(chain[..|chain| - 1], t[3..]))
    else if t[0] == '.' && |t| == 2 && t[1] == '.' then                 // ".."
      (if chain == [] then None else Some(chain[..|chain| - 1]))
    else if t[0] == '.' && |t| >= 2 && t[1] == '/' then Resolve(chain, t[2..])  // "./"
    else if t[0] == '.' && |t| == 1 then Some(chain)                            // "."
    else Some(chain + SplitTreePath("/" + t))
  }

  /** A plain name, alone or followed by more of a tree path, is neither "." nor "..":
      resolution goes down from it. */
  lemma StepDown(chain: seq<String>, n: String, rest: String)
    requires PlainName(n) && (rest == [] || rest[0] == '/')
    ensures Resolve(chain, n + rest) == Some(chain + SplitTreePath("/" + n + rest))
  {
    var t := n + rest;
    assert forall i :: 0 <= i < |n| ==> t[i] == n[i];
    assert |t| > |n| ==> t[|n|] == '/';
    assert |n| == 1 && n[0] == '.' ==> n == ".";
    assert |n| == 2 && n[0] == '.' && n[1] == '.' ==> n == "..";
    assert "/" + t == "/" + n + rest;
  }

  /** Below the mount root, the recorded path without its leading '/' leads down to the
      dentry it was recorded for. */
  lemma DescendResolves(c: seq<String>)
    requires forall i :: 0 <= i < |c| ==> PlainName(c[i])
    ensures |Recorded(c)| > 0 && Resolve([], Recorded(c)[1..]) == Some(c)
  {
    if c == [] {
      assert Recorded(c)[1..] == [];
    } else {
      var n, rest := c[0], TreePath(c[1..]);
      assert PlainName(n);
      assert Recorded(c) == TreePath(c) == "/" + n + rest;
      assert Recorded(c)[1..] == n + rest;
      if c[1..] != [] {
        assert PlainName(c[1..][0]);
        assert rest == Piece(c[1..][0]) + TreePath(c[1..][1..]);
      }
      StepDown([], n, rest);
      SplitTreePathInverse(c);
      assert [] + SplitTreePath("/" + n + rest) == c;
    }
  }

  /** `depth` times "../" climbs from a dentry `depth` levels down to the mount root. */
  lemma {:induction false} ClimbResolves(chain: seq<String>, x: String)
    ensures Resolve(chain, UpDirs(|chain|) + x) == Resolve([], x)
  {
    if chain != [] {
      var up := chain[..|chain| - 1];
      var t := UpDirs(|chain|) + x;
      assert |up| == |chain| - 1;
      assert UpDirs(|chain|) == "../" + UpDirs(|up|);
      assert t == "../" + (UpDirs(|up|) + x);
      assert t[0] == '.' && t[1] == '.' && t[2] == '/' && t[3..] == UpDirs(|up|) + x;
      assert Resolve(chain, t) == Resolve(up, UpDirs(|up|) + x);
      ClimbResolves(up, x);
    } else {
      assert UpDirs(|chain|) + x == x;
    }
  }

  /** The link target with its evident intent: "." stands for the way to the root when the
      link is in the root itself, so the target stays relative. */
  function CorrectedLinkTarget(chain: seq<String>, recorded: String): (r: String)
    ensures chain != [] ==> r == LinkTarget(chain, recorded)
    ensures chain == [] ==> r == "." + recorded
  {
    (if chain == [] then "." else PathToRoot(|chain|)) + recorded
  }

  /** A corrected link target, from the directory the link is made in, always leads to the
      dentry the target page was recorded for. */
  lemma LinkResolves(chain: seq<String>, c: seq<String>)
    requires forall i :: 0 <= i < |c| ==> PlainName(c[i])
    ensures Resolve(chain, CorrectedLinkTarget(chain, Recorded(c))) == Some(c)
  {
    if chain == [] {
      RootLinkResolves(c);
    } else {
      NestedLinkResolves(chain, c);
    }
  }

  /** Below the mount root, the way back and a '/' make whole "../" steps. */
  lemma PathToRootSlash(d: nat)
    requires d > 0
    ensures PathToRoot(d) + "/" == UpDirs(d)
  {
    UpDirsAppend(d - 1);
    assert UpDirs(d) == UpDirs(d)[..3 * d - 1] + "/";
  }

  /** In the mount root, the corrected target is "." before the recorded path. */
  lemma RootLinkResolves(c: seq<String>)
    requires forall i :: 0 <= i < |c| ==> PlainName(c[i])
    ensures Resolve([], "." + Recorded(c)) == Some(c)
  {
    var rec := Recorded(c);
    DescendResolves(c);
    var t := "." + rec;
    assert t[0] == '.' && t[1] == '/';
    assert t[2..] == rec[1..];
  }

  /** Below the mount root, the target climbs back to it and then descends. */
  lemma NestedLinkResolves(chain: seq<String>, c: seq<String>)
    requires chain != [] && forall i :: 0 <= i < |c| ==> PlainName(c[i])
    ensures Resolve(chain, LinkTarget(chain, Recorded(c))) == Some(c)
  {
    DescendResolves(c);
    TargetClimbs(chain, Recorded(c));
    ClimbResolves(chain, Recorded(c)[1..]);
  }

  /** Below the mount root, a target made of the way back and an absolute path climbs
      whole "../" steps and then follows the path. */
  lemma TargetClimbs(chain: seq<String>, rec: String)
    requires chain != [] && |rec| > 0 && rec[0] == '/'
    ensures LinkTarget(chain, rec) == UpDirs(|chain|) + rec[1..]
  {
    var x := rec[1..];
    assert rec == "/" + x;
    var back := PathToRoot(|chain|);
    PathToRootSlash(|chain|);
    ConcatAssoc(back, "/", x);
  }

  /** As written, a link made in the mount root is given the recorded tree path itself,
      which starts with '/': it leads out of the mount. Below the root the target is
      right. */
  lemma RootLinkEscapes(c: seq<String>)
    requires forall i :: 0 <= i < |c| ==> PlainName(c[i])
    ensures |LinkTarget([], Recorded(c))| > 0 && LinkTarget([], Recorded(c))[0] == '/'
    ensures Resolve([], LinkTarget([], Recorded(c))) == None
    ensures forall chain :: chain != [] ==> Resolve(chain, LinkTarget(chain, Recorded(c))) == Some(c)
  {
    if c != [] {
      assert PlainName(c[0]);
    }
    forall chain | chain != []
      ensures Resolve(chain, LinkTarget(chain, Recorded(c))) == Some(c)
    {
      LinkResolves(chain, c);
    }
  }

  /** `surffs_lookup_special_file`: a regular file of kind `t` sharing the directory's page,
      with the size `get_file_size` gives. */
  method LookupSpecialFile(dir: SurfInode, t: InodeType) returns (inode: SurfInode)
    requires dir.webpage != null
    ensures fresh(inode) && inode.Valid() && inode.itype == t
    ensures inode.webpage == dir.webpage && inode.size == FileSize(t, dir.webpage)
  {
    var page := dir.webpage;
    inode := new SurfInode.Create(t, FileSize(t, page));
    inode.webpage := page;
  }

  /** `surffs_lookup_subdir` for the dentry `name` in the directory with `chain`. The link
      titled `name` gives a web path; no such link gives no inode. A web path the ledger
      already knows becomes a symbolic link to the recorded tree path. Otherwise it becomes
      a directory for that web path, whose page is fetched later, and the ledger records the
      web path under this dentry's tree path; recording an empty web path or tree path is
      refused, and then no inode is returned. */
  method LookupSubdir(dir: SurfInode, name: String, chain: seq<String>, fsi: SuperInfo)
    returns (ret: int, inode: SurfInode?)
    modifies fsi.ledger
    ensures dir.webpage == null ==> ret == EINVAL && inode == null && fsi.ledger.entries == old(fsi.ledger.entries)
    ensures dir.webpage != null && LinkPath(dir.webpage.links, name).None? ==>
              ret == 0 && inode == null && fsi.ledger.entries == old(fsi.ledger.entries)
    ensures dir.webpage != null && LinkPath(dir.webpage.links, name).Some? ==>
              var webpath := LinkPath(dir.webpage.links, name).value;
              var found := Sb.Lookup(old(fsi.ledger.entries), webpath);
              var tree := DentryTreePath(chain, name);
              && (found.Some? ==>
                    && ret == 0 && inode != null && fresh(inode) && inode.Valid()
                    && inode.itype == Link && inode.webpage == null
                    && inode.linkto.Text() == LinkTarget(chain, found.value)
                    && fsi.ledger.entries == old(fsi.ledger.entries))
              && (found.None? && webpath != [] && tree != [] ==>
                    && ret == 0 && inode != null && fresh(inode) && inode.Valid()
                    && inode.itype == Dir && inode.webpage == null && inode.webPath.Text() == webpath
                    && fsi.ledger.entries == [Entry(webpath, tree)] + old(fsi.ledger.entries))
              && (found.None? && (webpath == [] || tree == []) ==>
                    ret == EINVAL && inode == null && fsi.ledger.entries == old(fsi.ledger.entries))
  {
    inode := null;
    var webpath;
    ret, webpath := GetWebpathByDentryName(dir, name);
    if ret != 0 || webpath.None? {
      return;
    }
    var dentryPath := new SfsString.Createz(256);
    ret := GetRelativeDentryPath(chain + [name], dentryPath);
    var discovered := fsi.ledger.Find(webpath.value);
    if discovered.Some? {
      inode := MakeSymlink(chain, discovered.value);
    } else {
      ret, inode := MakeSubdir(webpath.value, dentryPath.Text(), fsi.ledger);
    }
  }

  /** The symbolic-link branch of `surffs_lookup_subdir`: a link whose target leads from the
      directory with `chain` up to the mount root and down to `recorded`. */
  method MakeSymlink(chain: seq<String>, recorded: String) returns (inode: SurfInode)
    ensures fresh(inode) && inode.Valid() && inode.itype == Link && inode.webpage == null
    ensures inode.linkto.Text() == LinkTarget(chain, recorded)
  {
    inode := new SurfInode.Create(Link, 0);
    var ret := inode.linkto.Clear();
    ret := GetRelativePathToRoot(chain, inode.linkto);
    ret := inode.linkto.Cat(recorded);
  }

  /** The directory branch of `surffs_lookup_subdir`: a directory for `webpath`, recorded in
      the ledger under `tree`. When recording is refused the inode is not returned. */
  method MakeSubdir(webpath: String, tree: String, ledger: Ledger) returns (ret: int, inode: SurfInode?)
    modifies ledger
    ensures webpath != [] && tree != [] ==>
              && ret == 0 && inode != null && fresh(inode) && inode.Valid()
              && inode.itype == Dir && inode.webpage == null && inode.webPath.Text() == webpath
              && ledger.entries == [Entry(webpath, tree)] + old(ledger.entries)
    ensures webpath == [] || tree == [] ==> ret == EINVAL && inode == null && ledger.entries == old(ledger.entries)
  {
    var sub := new SurfInode.Create(Dir, 0);
    ret := sub.webPath.Set(webpath);
    ret := ledger.Add(webpath, tree);
    if ret != 0 {
      return ret, null;
    }
    inode := sub;
  }

  /** `surffs_lookup`: the directory's page is obtained first if it has none (a failure
      ends the lookup). A special file name gives that file; any other name is looked up
      among the page's links. */
  method Lookup(dir: SurfInode, name: String, chain: seq<String>, fsi: SuperInfo, cache: PageCache,
                net: NetOutcome) returns (ret: int, inode: SurfInode?)
    requires dir.Valid()
    modifies dir`webpage, cache, fsi.ledger
    ensures old(dir.webpage) != null ==> dir.webpage == old(dir.webpage) && cache.pages == old(cache.pages)
    ensures old(cache.Unique()) ==> cache.Unique()
    ensures dir.webpage == null ==> ret != 0 && inode == null
    ensures dir.webpage == null || SpecialType(name).Some? ==> fsi.ledger.entries == old(fsi.ledger.entries)
    ensures dir.webpage != null && SpecialType(name).Some? ==>
              && ret == 0 && inode != null && fresh(inode) && inode.Valid()
              && inode.itype == SpecialType(name).value && inode.webpage == dir.webpage
              && inode.size == FileSize(inode.itype, dir.webpage)
    ensures dir.webpage != null && SpecialType(name).None? && LinkPath(dir.webpage.links, name).None? ==>
              ret == 0 && inode == null && fsi.ledger.entries == old(fsi.ledger.entries)
    ensures dir.webpage != null && SpecialType(name).None? && LinkPath(dir.webpage.links, name).Some? ==>
              var webpath := LinkPath(dir.webpage.links, name).value;
              var found := Sb.Lookup(old(fsi.ledger.entries), webpath);
              && (found.Some? ==>
                    && ret == 0 && inode != null && fresh(inode) && inode.Valid() && inode.itype == Link
                    && inode.linkto.Text() == LinkTarget(chain, found.value)
                    && fsi.ledger.entries == old(fsi.ledger.entries))
              && (found.None? && ret == 0 ==>
                    && inode != null && fresh(inode) && inode.Valid() && inode.itype == Dir
                    && inode.webPath.Text() == webpath
                    && fsi.ledger.entries == [Entry(webpath, DentryTreePath(chain, name))] + old(fsi.ledger.entries))
  {
    inode := null;
    if dir.webpage == null {
      ret := ObtainInodeWebpage(dir, fsi, cache, net);
      if ret != 0 {
        return;
      }
    }
    ret := 0;
    var special := FindSpecialFile(name);
    if special.Some? {
      inode := LookupSpecialFile(dir, special.value);
      return;
    }
    ret, inode := LookupSubdir(dir, name, chain, fsi);
  }

  // ---------------------------------------------------------------------------------
  // surffs_readdir

  /** `DT_REG` and `DT_DIR`. */
  datatype DType = DtReg | DtDir

  /** One entry handed to the `dir_context` actor: a name, the position it was emitted at,
      and its type. */
  datatype DirEntry = DirEntry(name: String, offset: int, dtype: DType)

  /** `struct dir_context`: the position and the actor. The actor is a sink that takes
      entries while it has room and refuses the first one it has no room for, as the
      kernel's `filldir` does when the caller's buffer is full. */
  class DirContext {
    var pos: int
    var emitted: seq<DirEntry>
    var room: nat

    constructor (p: int, r: nat)
      ensures pos == p && room == r && emitted == []
    {
      pos, room, emitted := p, r, [];
    }

    /** `ctx->actor`: 0 if the entry was taken, `-EINVAL` if there was no room. */
    method Actor(name: String, offset: int, dtype: DType) returns (ret: int)
      modifies this`emitted, this`room
      ensures old(room) > 0 ==> ret == 0 && emitted == old(emitted) + [DirEntry(name, offset, dtype)] && room == old(room) - 1
      ensures old(room) == 0 ==> ret == EINVAL && emitted == old(emitted) && room == 0
    {
      if room == 0 {
        return EINVAL;
      }
      emitted := emitted + [DirEntry(name, offset, dtype)];
      room := room - 1;
      ret := 0;
    }
  }

  /** Entries for `names` at consecutive positions from `start`. */
  function Run(names: seq<String>, start: int, dtype: DType): (r: seq<DirEntry>)
    ensures |r| == |names|
    ensures forall i :: 0 <= i < |names| ==> r[i] == DirEntry(names[i], start + i, dtype)
  {
    seq(|names|, i requires 0 <= i < |names| => DirEntry(names[i], start + i, dtype))
  }

  const DOTS: seq<String> := [".", ".."]

  /** The names in `special_files`, in table order. */
  function SpecialNames(): (r: seq<String>)
    ensures |r| == SPECIAL_FILES_COUNT
  {
    seq(|SPECIAL_FILES|, i requires 0 <= i < |SPECIAL_FILES| => SPECIAL_FILES[i].0)
  }

  /** The link titles of a page, in list order. */
  function Titles(links: seq<HtmlLink>): (r: seq<String>)
    ensures |r| == |links|
  {
    seq(|links|, i requires 0 <= i < |links| => links[i].title)
  }

  /** Everything a directory lists, each entry at the index equal to its position: the dots,
      the special files from position 2, the links from position 6. */
  function Listing(links: seq<HtmlLink>): seq<DirEntry>
  {
    Run(DOTS, 0, DtDir) + Run(SpecialNames(), 2, DtReg) + Run(Titles(links), 2 + SPECIAL_FILES_COUNT, DtDir)
  }

  /** What one stage of a listing leaves behind: the entries taken, the position, the room
      left in the sink, and the return code. */
  datatype Listed = Listed(emitted: seq<DirEntry>, pos: int, room: nat, ret: int)

  /** One stage: from index `k` of the stage's entries on (nothing if `k` is outside
      them), entries are offered in order at position `pos` onwards until the sink
      refuses one. With `bumps`, the position also moves past the refused entry. */
  function RunStage(es: seq<DirEntry>, k: int, pos: int, room: nat, bumps: bool): Listed
  {
    if k < 0 || k >= |es| then Listed([], pos, room, 0)
    else if |es| - k <= room then Listed(es[k..], pos + (|es| - k), room - (|es| - k), 0)
    else Listed(es[k..k + room], pos + room + (if bumps then 1 else 0), 0, EINVAL)
  }

  /** A stage's outcome, after entries `e` taken by an earlier stage. */
  function Prepend(e: seq<DirEntry>, st: Listed): Listed
  {
    Listed(e + st.emitted, st.pos, st.room, st.ret)
  }

  /** `emit_special_files` from 2 and then `emit_dirs` from 2 after the special files, each
      refusing a position before its start. */
  function AfterDots(specials: seq<DirEntry>, dirs: seq<DirEntry>, pos: int, room: nat): Listed
  {
    if pos < 2 then Listed([], pos, room, EINVAL)
    else
      var s := RunStage(specials, pos - 2, pos, room, true);
      if s.ret != 0 then s
      else if s.pos < 2 + |specials| then Listed(s.emitted, s.pos, s.room, EINVAL)
      else Prepend(s.emitted, RunStage(dirs, s.pos - (2 + |specials|), s.pos, s.room, true))
  }

  /** `surffs_readdir` once the directory has its page, stage by stage: `dir_emit_dots`
      (which keeps the position of a refused dot), then the rest. */
  function ReaddirStages(dots: seq<DirEntry>, specials: seq<DirEntry>, dirs: seq<DirEntry>,
                         p: int, room: nat): Listed
  {
    var d := RunStage(dots, p, p, room, false);
    if d.ret != 0 then Listed(d.emitted, d.pos, d.room, EINVAL)
    else Prepend(d.emitted, AfterDots(specials, dirs, d.pos, d.room))
  }

  /** `surffs_readdir` as written, for a directory whose page has `links`. */
  function ReaddirAsWritten(links: seq<HtmlLink>, p: int, room: nat): Listed
  {
    ReaddirStages(Run(DOTS, 0, DtDir), Run(SpecialNames(), 2, DtReg),
                  Run(Titles(links), 2 + SPECIAL_FILES_COUNT, DtDir), p, room)
  }

  /** A listing call in closed form: from `p`, the entries of `listing` up to the first one
      the sink refuses. With `skipRefused`, the position moves past a refused entry unless it
      is a dot. */
  function ClosedForm(listing: seq<DirEntry>, p: int, room: nat, skipRefused: bool): Listed
  {
    if p < 0 then Listed([], p, room, EINVAL)
    else if p >= |listing| then Listed([], p, room, 0)
    else if |listing| - p <= room then Listed(listing[p..], |listing|, room - (|listing| - p), 0)
    else Listed(listing[p..p + room], p + room + (if skipRefused && p + room >= 2 then 1 else 0), 0, EINVAL)
  }

  /** Starting among the dots, with no room for the last dot. */
  lemma DotsRefused(d: seq<DirEntry>, s: seq<DirEntry>, l: seq<DirEntry>, p: int, room: nat)
    requires |d| == 2 && |s| == 4 && 0 <= p < 2 && room < 2 - p
    ensures ReaddirStages(d, s, l, p, room) == ClosedForm(d + s + l, p, room, true)
  {
    var all := d + s + l;
    assert RunStage(d, p, p, room, false) == Listed(d[p..p + room], p + room, 0, EINVAL);
    assert all[p..p + room] == d[p..p + room];
  }

  /** Starting among the dots, with room for the dots but not for every special file. */
  lemma DotsThenSpecials(d: seq<DirEntry>, s: seq<DirEntry>, l: seq<DirEntry>, p: int, room: nat)
    requires |d| == 2 && |s| == 4 && 0 <= p < 2 && 2 - p <= room < 6 - p
    ensures ReaddirStages(d, s, l, p, room) == ClosedForm(d + s + l, p, room, true)
  {
    var all := d + s + l;
    var r1 := room - (2 - p);
    assert RunStage(d, p, p, room, false) == Listed(d[p..], 2, r1, 0);
    assert RunStage(s, 0, 2, r1, true) == Listed(s[0..r1], 3 + r1, 0, EINVAL);
    assert AfterDots(s, l, 2, r1) == Listed(s[0..r1], 3 + r1, 0, EINVAL);
    assert all[p..p + room] == d[p..] + s[0..r1];
  }

  /** Starting among the dots, with room for the dots and every special file. */
  lemma DotsThenLinks(d: seq<DirEntry>, s: seq<DirEntry>, l: seq<DirEntry>, p: int, room: nat)
    requires |d| == 2 && |s| == 4 && 0 <= p < 2 && 6 - p <= room
    ensures ReaddirStages(d, s, l, p, room) == ClosedForm(d + s + l, p, room, true)
  {
    var all := d + s + l;
    var r1 := room - (2 - p);
    var r2 := r1 - 4;
    assert RunStage(d, p, p, room, false) == Listed(d[p..], 2, r1, 0);
    assert RunStage(s, 0, 2, r1, true) == Listed(s, 6, r2, 0);
    assert AfterDots(s, l, 2, r1) == Prepend(s, RunStage(l, 0, 6, r2, true));
    if |l| <= r2 {
      assert RunStage(l, 0, 6, r2, true) == Listed(l, 6 + |l|, r2 - |l|, 0);
      assert all[p..] == d[p..] + s + l;
    } else {
      assert RunStage(l, 0, 6, r2, true) == Listed(l[0..r2], 7 + r2, 0, EINVAL);
      assert all[p..p + room] == d[p..] + s + l[0..r2];
    }
  }

  /** Starting among the special files, with no room for all of them. */
  lemma SpecialsRefused(d: seq<DirEntry>, s: seq<DirEntry>, l: seq<DirEntry>, p: int, room: nat)
    requires |d| == 2 && |s| == 4 && 2 <= p < 6 && room < 6 - p
    ensures ReaddirStages(d, s, l, p, room) == ClosedForm(d + s + l, p, room, true)
  {
    var all := d + s + l;
    var k := p - 2;
    assert RunStage(d, p, p, room, false) == Listed([], p, room, 0);
    assert RunStage(s, k, p, room, true) == Listed(s[k..k + room], p + room + 1, 0, EINVAL);
    assert all[p..p + room] == s[k..k + room];
  }

  /** Starting among the special files, with room for the rest of them. */
  lemma SpecialsThenLinks(d: seq<DirEntry>, s: seq<DirEntry>, l: seq<DirEntry>, p: int, room: nat)
    requires |d| == 2 && |s| == 4 && 2 <= p < 6 && 6 - p <= room
    ensures ReaddirStages(d, s, l, p, room) == ClosedForm(d + s + l, p, room, true)
  {
    var all := d + s + l;
    var k := p - 2;
    var r2 := room - (4 - k);
    assert RunStage(d, p, p, room, false) == Listed([], p, room, 0);
    assert RunStage(s, k, p, room, true) == Listed(s[k..], 6, r2, 0);
    assert AfterDots(s, l, p, room) == Prepend(s[k..], RunStage(l, 0, 6, r2, true));
    if |l| <= r2 {
      assert RunStage(l, 0, 6, r2, true) == Listed(l, 6 + |l|, r2 - |l|, 0);
      assert all[p..] == s[k..] + l;
    } else {
      assert RunStage(l, 0, 6, r2, true) == Listed(l[0..r2], 7 + r2, 0, EINVAL);
      assert all[p..p + room] == s[k..] + l[0..r2];
    }
  }

  /** Starting among the links, or past them. */
  lemma StagesFromLinks(d: seq<DirEntry>, s: seq<DirEntry>, l: seq<DirEntry>, p: int, room: nat)
    requires |d| == 2 && |s| == 4 && 6 <= p
    ensures ReaddirStages(d, s, l, p, room) == ClosedForm(d + s + l, p, room, true)
  {
    var all := d + s + l;
    var k := p - 6;
    assert RunStage(d, p, p, room, false) == Listed([], p, room, 0);
    assert RunStage(s, p - 2, p, room, true) == Listed([], p, room, 0);
    assert AfterDots(s, l, p, room) == Prepend([], RunStage(l, k, p, room, true));
    if p < |all| {
      if |l| - k <= room {
        assert RunStage(l, k, p, room, true) == Listed(l[k..], p + (|l| - k), room - (|l| - k), 0);
        assert all[p..] == l[k..];
      } else {
        assert RunStage(l, k, p, room, true) == Listed(l[k..k + room], p + room + 1, 0, EINVAL);
        assert all[p..p + room] == l[k..k + room];
      }
    } else {
      assert RunStage(l, k, p, room, true) == Listed([], p, room, 0);
    }
  }

  /** The three stages together take one window of the whole listing: from `p`, the
      entries up to the first refusal. */
  lemma StagesClosedForm(d: seq<DirEntry>, s: seq<DirEntry>, l: seq<DirEntry>, p: int, room: nat)
    requires |d| == 2 && |s| == 4
    ensures ReaddirStages(d, s, l, p, room) == ClosedForm(d + s + l, p, room, true)
  {
    if 0 <= p < 2 {
      if room < 2 - p {
        DotsRefused(d, s, l, p, room);
      } else if room < 6 - p {
        DotsThenSpecials(d, s, l, p, room);
      } else {
        DotsThenLinks(d, s, l, p, room);
      }
    } else if 2 <= p < 6 {
      if room < 6 - p {
        SpecialsRefused(d, s, l, p, room);
      } else {
        SpecialsThenLinks(d, s, l, p, room);
      }
    } else if 6 <= p {
      StagesFromLinks(d, s, l, p, room);
    }
  }

  /** `surffs_readdir` as written emits the listing from the position it is called with, up
      to the first entry the sink refuses; the position then points past that entry (except
      for a refused dot). */
  lemma ReaddirClosedForm(links: seq<HtmlLink>, p: int, room: nat)
    ensures ReaddirAsWritten(links, p, room) == ClosedForm(Listing(links), p, room, true)
  {
    StagesClosedForm(Run(DOTS, 0, DtDir), Run(SpecialNames(), 2, DtReg),
                     Run(Titles(links), 2 + SPECIAL_FILES_COUNT, DtDir), p, room);
  }

  /** The dots, the special files and the links each sit at the position equal to their
      index: special file `n` at 2 + n and link `i` at 6 + i. */
  lemma ListingPositions(links: seq<HtmlLink>)
    ensures |Listing(links)| == 6 + |links|
    ensures Listing(links)[0] == DirEntry(".", 0, DtDir) && Listing(links)[1] == DirEntry("..", 1, DtDir)
    ensures forall n :: 0 <= n < 4 ==> Listing(links)[2 + n] == DirEntry(SPECIAL_FILES[n].0, 2 + n, DtReg)
    ensures forall i :: 0 <= i < |links| ==> Listing(links)[6 + i] == DirEntry(links[i].title, 6 + i, DtDir)
    ensures forall i :: 0 <= i < |Listing(links)| ==> Listing(links)[i].offset == i
  {
    var d, s, l := Run(DOTS, 0, DtDir), Run(SpecialNames(), 2, DtReg), Run(Titles(links), 6, DtDir);
    assert Listing(links) == d + s + l;
    forall i | 0 <= i < |Listing(links)|
      ensures Listing(links)[i].offset == i
    {
      if i < 2 {
        assert Listing(links)[i] == d[i];
      } else if i < 6 {
        assert Listing(links)[i] == s[i - 2];
      } else {
        assert Listing(links)[i] == l[i - 6];
      }
    }
  }

  /** As written, a call that fills the sink moves the position past the entry it was
      refused, so the next call starts after it: that entry is never listed. */
  lemma ReaddirLosesEntry(links: seq<HtmlLink>, p: int, room: nat)
    requires 0 <= p && 2 <= p + room < |Listing(links)|
    ensures var all := Listing(links);
            var first := ReaddirAsWritten(links, p, room);
            var next := ReaddirAsWritten(links, first.pos, |all|);
            && first.ret == EINVAL && first.pos == p + room + 1 && next.ret == 0
            && first.emitted + next.emitted == all[p..p + room] + all[p + room + 1..]
            && all[p + room] !in first.emitted + next.emitted
  {
    var all := Listing(links);
    ReaddirClosedForm(links, p, room);
    var first := ReaddirAsWritten(links, p, room);
    ReaddirClosedForm(links, first.pos, |all|);
    var next := ReaddirAsWritten(links, first.pos, |all|);
    assert next.emitted == all[p + room + 1..];
    ListingPositions(links);
    var out := first.emitted + next.emitted;
    forall i | 0 <= i < |out|
      ensures out[i].offset != p + room
    {
      if i < room {
        assert out[i] == all[p + i];
      } else {
        assert out[i] == all[p + room + 1 + (i - room)];
      }
    }
  }

  /** `surffs_readdir` with the position moved only past entries the sink took, as the
      `dir_context` protocol intends, in closed form. */
  function ReaddirResumable(links: seq<HtmlLink>, p: int, room: nat): Listed
  {
    ClosedForm(Listing(links), p, room, false)
  }

  /** In one call both versions take the same entries and return the same code; they differ
      only in the position left behind. */
  lemma ReaddirSameEntries(links: seq<HtmlLink>, p: int, room: nat)
    ensures ReaddirAsWritten(links, p, room).emitted == ReaddirResumable(links, p, room).emitted
    ensures ReaddirAsWritten(links, p, room).ret == ReaddirResumable(links, p, room).ret
    ensures ReaddirAsWritten(links, p, room).room == ReaddirResumable(links, p, room).room
  {
    ReaddirClosedForm(links, p, room);
  }

  /** With the correction a call lists exactly the entries from its start to the position
      it leaves, fails exactly when entries remain, and a second call goes on where the
      first stopped: together they list the entries from the start without a gap. */
  lemma ReaddirResumes(links: seq<HtmlLink>, p: int, room: nat, room2: nat)
    requires 0 <= p <= |Listing(links)|
    ensures var all := Listing(links);
            var first := ReaddirResumable(links, p, room);
            var next := ReaddirResumable(links, first.pos, room2);
            && p <= first.pos <= next.pos <= |all|
            && first.emitted == all[p..first.pos] && next.emitted == all[first.pos..next.pos]
            && first.emitted + next.emitted == all[p..next.pos]
            && (first.ret == 0 <==> first.pos == |all|)
            && |first.emitted| == (if |all| - p <= room then |all| - p else room)
  {
    var all := Listing(links);
    var first := ReaddirResumable(links, p, room);
    ResumableWindow(all, p, room);
    var next := ReaddirResumable(links, first.pos, room2);
    ResumableWindow(all, first.pos, room2);
    assert all[p..first.pos] + all[first.pos..next.pos] == all[p..next.pos];
  }

  /** One listing call that keeps a refused entry: a window of the listing from `p`, as long
      as the room allows, ending with success exactly when it reaches the end. */
  lemma ResumableWindow(all: seq<DirEntry>, p: int, room: nat)
    requires 0 <= p <= |all|
    ensures var r := ClosedForm(all, p, room, false);
            && p <= r.pos <= |all| && r.emitted == all[p..r.pos]
            && (r.ret == 0 <==> r.pos == |all|)
            && |r.emitted| == (if |all| - p <= room then |all| - p else room)
  {
  }

  /** `dir_emit_dots`: "." is offered at position 0 and ".." at position 1, each only when
      the position is there; a refusal ends it with the position unchanged and `false`. */
  method EmitDots(ctx: DirContext) returns (ok: bool)
    modifies ctx
    ensures var d := RunStage(Run(DOTS, 0, DtDir), old(ctx.pos), old(ctx.pos), old(ctx.room), false);
            && ctx.emitted == old(ctx.emitted) + d.emitted && ctx.pos == d.pos && ctx.room == d.room
            && ok == (d.ret == 0)
  {
    if ctx.pos == 0 {
      var ret := ctx.Actor(".", ctx.pos, DtDir);
      if ret != 0 {
        return false;
      }
      ctx.pos := 1;
    }
    if ctx.pos == 1 {
      var ret := ctx.Actor("..", ctx.pos, DtDir);
      if ret != 0 {
        return false;
      }
      ctx.pos := 2;
    }
    return true;
  }

  /** The loop `emit_special_files` and `emit_dirs` share: the `n`-th name is offered only
      when `start + n` is the current position, and the position moves on after every offer,
      refused or not; the first refusal ends the loop. */
  method OfferRun(ctx: DirContext, names: seq<String>, start: int, dtype: DType) returns (ret: int)
    requires ctx.pos >= start
    modifies ctx
    ensures var st := RunStage(Run(names, start, dtype), old(ctx.pos) - start, old(ctx.pos), old(ctx.room), true);
            && ctx.emitted == old(ctx.emitted) + st.emitted && ctx.pos == st.pos && ctx.room == st.room
            && ret == st.ret
  {
    ghost var es := Run(names, start, dtype);
    ghost var p, r, e0 := ctx.pos, ctx.room, ctx.emitted;
    ghost var k := p - start;
    var n := 0;
    ret := 0;
    while n < |names|
      invariant 0 <= n <= |names| && ret == 0
      invariant n <= k ==> ctx.pos == p && ctx.emitted == e0 && ctx.room == r
      invariant n > k ==> n - k <= r && ctx.room == r - (n - k)
      invariant n > k ==> ctx.pos == start + n
      invariant n > k ==> ctx.emitted == e0 + es[k..n]
    {
      if start + n == ctx.pos {
        assert es[n] == DirEntry(names[n], ctx.pos, dtype);
        ret := ctx.Actor(names[n], ctx.pos, dtype);
        ctx.pos := ctx.pos + 1;
        if ret != 0 {
          assert n - k == r;
          assert RunStage(es, k, p, r, true) == Listed(es[k..k + r], p + r + 1, 0, EINVAL);
          return;
        }
        assert es[k..n + 1] == es[k..n] + [es[n]];
      }
      n := n + 1;
    }
    if k < |es| {
      assert es[k..n] == es[k..];
      assert RunStage(es, k, p, r, true) == Listed(es[k..], p + (|es| - k), r - (|es| - k), 0);
    } else {
      assert RunStage(es, k, p, r, true) == Listed([], p, r, 0);
    }
  }

  /** `emit_special_files`: a position before `expectedStart` is refused; otherwise the
      special files are offered at positions from `expectedStart`, as regular files. */
  method EmitSpecialFiles(ctx: DirContext, expectedStart: int) returns (ret: int)
    modifies ctx
    ensures old(ctx.pos) < expectedStart ==>
              ret == EINVAL && ctx.emitted == old(ctx.emitted) && ctx.pos == old(ctx.pos) && ctx.room == old(ctx.room)
    ensures old(ctx.pos) >= expectedStart ==>
              var st := RunStage(Run(SpecialNames(), expectedStart, DtReg), old(ctx.pos) - expectedStart,
                                 old(ctx.pos), old(ctx.room), true);
              && ctx.emitted == old(ctx.emitted) + st.emitted && ctx.pos == st.pos && ctx.room == st.room
              && ret == st.ret
  {
    if ctx.pos < expectedStart {
      return EINVAL;
    }
    ret := OfferRun(ctx, SpecialNames(), expectedStart, DtReg);
  }

  /** `emit_dirs`: a position before `expectedStart` is refused, and so is a directory
      without a page; otherwise the page's link titles are offered at positions from
      `expectedStart`, as directories. */
  method EmitDirs(ctx: DirContext, dir: SurfInode, expectedStart: int) returns (ret: int)
    modifies ctx
    ensures old(ctx.pos) < expectedStart || dir.webpage == null ==>
              ret == EINVAL && ctx.emitted == old(ctx.emitted) && ctx.pos == old(ctx.pos) && ctx.room == old(ctx.room)
    ensures old(ctx.pos) >= expectedStart && dir.webpage != null ==>
              var st := RunStage(Run(Titles(dir.webpage.links), expectedStart, DtDir), old(ctx.pos) - expectedStart,
                                 old(ctx.pos), old(ctx.room), true);
              && ctx.emitted == old(ctx.emitted) + st.emitted && ctx.pos == st.pos && ctx.room == st.room
              && ret == st.ret
  {
    if ctx.pos < expectedStart {
      return EINVAL;
    }
    if dir.webpage == null {
      return EINVAL;
    }
    ret := OfferRun(ctx, Titles(dir.webpage.links), expectedStart, DtDir);
  }

  /** The special files from position 2 and then the links after them, each stage's
      failure ending the call. */
  method ListAfterDots(dir: SurfInode, ctx: DirContext) returns (ret: int)
    requires dir.webpage != null
    modifies ctx
    ensures var st := AfterDots(Run(SpecialNames(), 2, DtReg), Run(Titles(dir.webpage.links), 2 + SPECIAL_FILES_COUNT, DtDir),
                                old(ctx.pos), old(ctx.room));
            && ctx.emitted == old(ctx.emitted) + st.emitted && ctx.pos == st.pos && ctx.room == st.room
            && ret == st.ret
  {
    ghost var e0 := ctx.emitted;
    ghost var sp := RunStage(Run(SpecialNames(), 2, DtReg), ctx.pos - 2, ctx.pos, ctx.room, true);
    ret := EmitSpecialFiles(ctx, 2);
    if ret != 0 {
      return;
    }
    ghost var dl := RunStage(Run(Titles(dir.webpage.links), 2 + SPECIAL_FILES_COUNT, DtDir),
                             sp.pos - (2 + SPECIAL_FILES_COUNT), sp.pos, sp.room, true);
    ret := EmitDirs(ctx, dir, 2 + SPECIAL_FILES_COUNT);
    ConcatAssoc(e0, sp.emitted, dl.emitted);
  }

  /** The part of `surffs_readdir` after the page is there: the dots, then the rest unless
      a dot was refused. */
  method ListDir(dir: SurfInode, ctx: DirContext) returns (ret: int)
    requires dir.webpage != null
    modifies ctx
    ensures var st := ReaddirAsWritten(dir.webpage.links, old(ctx.pos), old(ctx.room));
            && ctx.emitted == old(ctx.emitted) + st.emitted && ctx.pos == st.pos && ctx.room == st.room
            && ret == st.ret
  {
    ghost var e0 := ctx.emitted;
    ghost var d := RunStage(Run(DOTS, 0, DtDir), ctx.pos, ctx.pos, ctx.room, false);
    var ok := EmitDots(ctx);
    if !ok {
      return EINVAL;
    }
    ghost var rest := AfterDots(Run(SpecialNames(), 2, DtReg), Run(Titles(dir.webpage.links), 2 + SPECIAL_FILES_COUNT, DtDir),
                                d.pos, d.room);
    ret := ListAfterDots(dir, ctx);
    ConcatAssoc(e0, d.emitted, rest.emitted);
  }

  /** `surffs_readdir`: a directory without a page obtains it first (a failure ends the
      call with nothing listed); then the listing proper. */
  method Readdir(dir: SurfInode, ctx: DirContext, fsi: SuperInfo, cache: PageCache, net: NetOutcome)
    returns (ret: int)
    requires dir.Valid()
    modifies dir`webpage, cache, ctx
    ensures old(dir.webpage) != null ==> dir.webpage == old(dir.webpage) && cache.pages == old(cache.pages)
    ensures old(cache.Unique()) ==> cache.Unique()
    ensures dir.webpage == null ==>
              ret != 0 && ctx.emitted == old(ctx.emitted) && ctx.pos == old(ctx.pos) && ctx.room == old(ctx.room)
    ensures dir.webpage != null ==>
              var st := ReaddirAsWritten(dir.webpage.links, old(ctx.pos), old(ctx.room));
              && ctx.emitted == old(ctx.emitted) + st.emitted && ctx.pos == st.pos && ctx.room == st.room
              && ret == st.ret
  {
    if dir.webpage == null {
      ret := ObtainInodeWebpage(dir, fsi, cache, net);
      if ret != 0 {
        return;
      }
    }
    ret := ListDir(dir, ctx);
  }

  // ---------------------------------------------------------------------------------
  // surffs_aio_read

  /** The part of `struct kiocb` a read uses: the file position. */
  class Kiocb {
    var pos: int

    constructor (p: int)
      ensures pos == p
    {
      pos := p;
    }
  }

  /** The cast of a file position (`loff_t`) to `size_t`, on a 64-bit machine. */
  function SizeT(x: int): nat
  {
    x % 0x1_0000_0000_0000_0000
  }

  /** What a read of `len` bytes at `pos` returns: the bytes from `pos`, no more than `len`
      and no further than the end. */
  function ReadSlice(text: String, pos: nat, len: nat): (r: String)
    requires pos <= |text|
    ensures |r| == if pos + len < |text| then len else |text| - pos
    ensures r == text[pos..pos + |r|]
  {
    if pos + len < |text| then text[pos..pos + len] else text[pos..]
  }

  /** Two reads in a row, the second from where the first left off, read what one read of
      both lengths reads. */
  lemma ReadSliceConcat(text: String, pos: nat, a: nat, b: nat)
    requires pos <= |text|
    ensures pos + |ReadSlice(text, pos, a)| <= |text|
    ensures ReadSlice(text, pos, a) + ReadSlice(text, pos + |ReadSlice(text, pos, a)|, b)
              == ReadSlice(text, pos, a + b)
  {
    var first := ReadSlice(text, pos, a);
    var p2 := pos + |first|;
    var second := ReadSlice(text, p2, b);
    assert text[pos..p2] + text[p2..p2 + |second|] == text[pos..p2 + |second|];
  }

  /** A read that starts at the end reads nothing. */
  lemma ReadSliceAtEnd(text: String, len: nat)
    ensures ReadSlice(text, |text|, len) == []
  {
  }

  /** `surffs_aio_read` for a special file (one request segment of `requestedLen` bytes).
      Without a source the read returns 0; a position past the end is refused; otherwise
      the bytes up to `requestedLen` from the position are read and the position moves on
      by their number. The bytes are returned instead of being copied to user memory. */
  method AioRead(inode: SurfInode, iocb: Kiocb, requestedLen: nat) returns (r: int, bytes: String)
    requires inode.webpage != null ==> inode.webpage.Valid()
    modifies iocb
    ensures ReadingSource(inode.webpage, inode.itype).SourceError? ==>
              r == ReadingSource(inode.webpage, inode.itype).err && bytes == [] && iocb.pos == old(iocb.pos)
    ensures ReadingSource(inode.webpage, inode.itype) == NoSource ==>
              r == 0 && bytes == [] && iocb.pos == old(iocb.pos)
    ensures ReadingSource(inode.webpage, inode.itype).SourceText? ==>
              var text := ReadingSource(inode.webpage, inode.itype).text;
              && (SizeT(old(iocb.pos)) > |text| ==> r == EINVAL && bytes == [] && iocb.pos == old(iocb.pos))
              && (SizeT(old(iocb.pos)) <= |text| ==>
                    && bytes == ReadSlice(text, SizeT(old(iocb.pos)), requestedLen)
                    && r == |bytes| && iocb.pos == old(iocb.pos) + |bytes|)
  {
    var ret, source := DefineReadingSource(inode.webpage, inode.itype);
    bytes := [];
    if ret != 0 {
      return ret, bytes;
    }
    if source.None? {
      return 0, bytes;
    }
    var text := source.value;
    var requestedPos := SizeT(iocb.pos);
    if requestedPos > |text| {
      return EINVAL, bytes;
    }
    var end := if requestedPos + requestedLen < |text| then requestedPos + requestedLen else |text|;
    var readLen := end - requestedPos;
    if readLen > 0 {
      bytes := text[requestedPos..end];
    }
    iocb.pos := iocb.pos + readLen;
    r := readLen;
  }
}
