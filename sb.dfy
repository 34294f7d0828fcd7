/** The superblock of src/surffs_sb.c: the ledger of discovered pages and the checks and
    root registration `surffs_fill_super` performs at mount time.

    The ledger (`discovred_paths`) maps a page's web path to the tree path of the directory
    first made for it. The source keeps it in a hash table with 4096 buckets; a key's bucket
    depends only on the key, and `hash_add` puts a node at the head of its bucket, so the
    entries with a given key are met newest first. The ledger is modelled as one list with
    new entries at its head, which the walk of `find_discovered_path` meets in the same
    order. */
module Sb {
  import opened Base
  import opened CString
  import opened Helpers
  import opened WebTypes
  import opened Parser
  import opened Internet
  import opened InodeTypes

  /** A `struct string_hash_node`: a web path and the tree path recorded for it. */
  datatype Entry = Entry(key: String, value: String)

  /** What a lookup of `key` finds: the value of the first entry with that key. */
  function Lookup(entries: seq<Entry>, key: String): Option<String>
  {
    if entries == [] then None
    else if entries[0].key == key then Some(entries[0].value)
    else Lookup(entries[1..], key)
  }

  /** A lookup finds a value exactly when some entry has the key, and then it is the
      value of the first such entry. */
  lemma {:induction false} LookupFirst(entries: seq<Entry>, key: String)
    ensures Lookup(entries, key).None? <==> forall i :: 0 <= i < |entries| ==> entries[i].key != key
    ensures Lookup(entries, key).Some? ==>
              exists i :: 0 <= i < |entries| && entries[i] == Entry(key, Lookup(entries, key).value)
                          && forall j :: 0 <= j < i ==> entries[j].key != key
  {
    if entries != [] && entries[0].key != key {
      LookupFirst(entries[1..], key);
      if Lookup(entries, key).Some? {
        var i :| 0 <= i < |entries[1..]| && entries[1..][i] == Entry(key, Lookup(entries, key).value)
                 && forall j :: 0 <= j < i ==> entries[1..][j].key != key;
        assert entries[i + 1] == entries[1..][i];
        forall j | 0 <= j < i + 1
          ensures entries[j].key != key
        {
          if j > 0 {
            assert entries[j] == entries[1..][j - 1];
          }
        }
      }
    }
  }

  /** The map the ledger stands for: an entry hides every later one with the same key. */
  ghost function View(entries: seq<Entry>): map<String, String>
  {
    if entries == [] then map[] else View(entries[1..])[entries[0].key := entries[0].value]
  }

  /** Lookups read the map. */
  lemma {:induction false} LookupView(entries: seq<Entry>, key: String)
    ensures Lookup(entries, key).Some? <==> key in View(entries)
    ensures Lookup(entries, key).Some? ==> Lookup(entries, key).value == View(entries)[key]
  {
    if entries != [] {
      LookupView(entries[1..], key);
    }
  }

  /** No key is recorded twice. */
  predicate KeysUnique(entries: seq<Entry>)
  {
    forall i, j :: 0 <= i < j < |entries| ==> entries[i].key != entries[j].key
  }

  /** `add_discovered_path` checks nothing before inserting; keys stay unique only because
      its caller adds a key after a lookup of it came back empty. */
  lemma AddAfterMissKeepsUnique(entries: seq<Entry>, key: String, value: String)
    requires KeysUnique(entries) && Lookup(entries, key).None?
    ensures KeysUnique([Entry(key, value)] + entries)
  {
    LookupFirst(entries, key);
    var es := [Entry(key, value)] + entries;
    forall i, j | 0 <= i < j < |es|
      ensures es[i].key != es[j].key
    {
      assert es[j] == entries[j - 1];
      if i > 0 {
        assert es[i] == entries[i - 1];
      }
    }
  }

  /** After an insertion the new key finds the new value and every other key finds what it
      found before. */
  lemma AddThenLookup(entries: seq<Entry>, key: String, value: String, other: String)
    ensures Lookup([Entry(key, value)] + entries, key) == Some(value)
    ensures other != key ==> Lookup([Entry(key, value)] + entries, other) == Lookup(entries, other)
  {
    assert ([Entry(key, value)] + entries)[1..] == entries;
  }

  /** `discovred_paths`. */
  class Ledger {
    var entries: seq<Entry>

    /** `hash_init`: an empty table. */
    constructor ()
      ensures entries == []
    {
      entries := [];
    }

    /** `find_discovered_path`: the bucket is walked from its head and the first node whose
        key equals `webpath` gives the value; otherwise there is none. */
    method Find(webpath: String) returns (value: Option<String>)
      ensures value == Lookup(entries, webpath)
    {
      var i := 0;
      while i < |entries|
        invariant 0 <= i <= |entries|
        invariant Lookup(entries, webpath) == Lookup(entries[i..], webpath)
      {
        assert entries[i..][1..] == entries[i + 1..];
        if entries[i].key == webpath {
          return Some(entries[i].value);
        }
        i := i + 1;
      }
      return None;
    }

    /** `add_discovered_path`: copies of both strings are made with `sfs_string_create`,
        which refuses empty text; only when both exist is the node put at the head. No
        existing entry is looked at. */
    method Add(webpath: String, linuxPath: String) returns (ret: int)
      modifies this
      ensures webpath == [] || linuxPath == [] ==> ret == EINVAL && entries == old(entries)
      ensures webpath != [] && linuxPath != [] ==>
                ret == 0 && entries == [Entry(webpath, linuxPath)] + old(entries)
      ensures ret == 0 ==> Lookup(entries, webpath) == Some(linuxPath)
    {
      var key := new SfsString.Zero();
      ret := key.Create(webpath);
      if ret != 0 {
        return;
      }
      var value := new SfsString.Zero();
      ret := value.Create(linuxPath);
      if ret != 0 {
        return;
      }
      entries := [Entry(key.Text(), value.Text())] + entries;
    }
  }

  /** `struct surffs_sb_info`: the root address (its strings by their text), the mount
      string and the ledger. */
  class SuperInfo {
    var rootAddress: WebAddress
    var rawMountData: String
    const ledger: Ledger

    /** `kzalloc` then `hash_init`. */
    constructor ()
      ensures rootAddress == WebAddress([], [], []) && rawMountData == []
      ensures fresh(ledger) && ledger.entries == []
    {
      rootAddress := WebAddress([], [], []);
      rawMountData := [];
      ledger := new Ledger();
    }
  }

  /** Under `PreferHost` the path of a split URL is never empty. */
  lemma PreferHostPathNonEmpty(url: String)
    ensures SplitUrl(url, PreferHost).path != []
  {
    var pos := HostStart(url);
    match IndexOf(url, "/", pos)
    case Some(j) =>
    case None =>
  }

  /** The checks of `surffs_fill_super`: the URL being mounted is split with `PreferHost`
      into the root host and path; its protocol must be supported and an ip must be given
      (`ip` is the text the `ip=` mount options leave in the root address). */
  method CheckMount(mountdata: String, ip: String) returns (ret: int, address: WebAddress)
    ensures ret == 0 <==> ValidMount(mountdata, ip)
    ensures ret != 0 ==> ret == EINVAL
    ensures ret == 0 ==> address == WebAddress(ip, SplitUrl(mountdata, PreferHost).host,
                                               SplitUrl(mountdata, PreferHost).path)
  {
    var protocol := new SfsString.Createz(16);
    var host := new SfsString.Createz(64);
    var path := new SfsString.Createz(64);
    var ipText := new SfsString.Createz(16);
    // all three strings have buffers, so the split cannot be refused here
    ret := ExtractUrlParams(mountdata, protocol, host, path, PreferHost);
    ValidProtocols(protocol.Text());
    address := WebAddress([], [], []);
    if !IsValidProtocol(protocol.Text()) {
      return EINVAL, address;
    }
    ret := ipText.Cat(ip);
    if ipText.textlen == 0 {
      return EINVAL, address;
    }
    address := WebAddress(ipText.Text(), host.Text(), path.Text());
  }

  /** The root registration of `surffs_fill_super`: the root inode's web path is set to the
      root path, which is then recorded in the ledger under "/". */
  method RegisterRoot(info: SuperInfo, path: String) returns (ret: int, root: SurfInode)
    requires path != []
    modifies info.ledger
    ensures ret == 0 && fresh(root) && root.Valid()
    ensures root.itype == Dir && root.webpage == null && root.webPath.Text() == path
    ensures info.ledger.entries == [Entry(path, "/")] + old(info.ledger.entries)
  {
    root := new SurfInode.Create(Dir, 0);
    ret := root.webPath.Set(path);
    ret := info.ledger.Add(root.webPath.Text(), "/");
  }

  /** `surffs_fill_super` without the VFS set-up: the checks, then the root address, the
      mount string and the root registration. On failure the superblock info is released,
      so none is returned. */
  method FillSuper(mountdata: String, ip: String) returns (ret: int, fsi: SuperInfo?, root: SurfInode?)
    ensures ret == 0 <==> ValidMount(mountdata, ip)
    ensures ret != 0 ==> ret == EINVAL && fsi == null && root == null
    ensures ret == 0 ==> && fsi != null && root != null && fresh(fsi) && fresh(root) && root.Valid()
                         && fsi.rootAddress == WebAddress(ip, SplitUrl(mountdata, PreferHost).host,
                                                          SplitUrl(mountdata, PreferHost).path)
                         && fsi.rawMountData == mountdata
                         && fsi.ledger.entries == [Entry(SplitUrl(mountdata, PreferHost).path, "/")]
                         && root.itype == Dir && root.webpage == null
                         && root.webPath.Text() == SplitUrl(mountdata, PreferHost).path
  {
    var info := new SuperInfo();
    info.rawMountData := mountdata;
    var address;
    ret, address := CheckMount(mountdata, ip);
    if ret != 0 {
      return ret, null, null;
    }
    info.rootAddress := address;
    PreferHostPathNonEmpty(mountdata);
    var r;
    ret, r := RegisterRoot(info, address.path);
    fsi, root := info, r;
  }

  /** A mount succeeds exactly when the URL's protocol is empty or "http" and an ip is
      given. */
  predicate ValidMount(mountdata: String, ip: String)
  {
    var protocol := SplitUrl(mountdata, PreferHost).protocol;
    (protocol == [] || protocol == "http") && ip != []
  }
}
