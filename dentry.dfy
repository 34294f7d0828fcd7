/** Paths inside the mounted tree (src/surffs_dentry.c).

    A dentry is modelled by its chain: the names of the dentries from the child of the
    mount root down to the dentry itself (the root's chain is empty). The source walks
    the `d_parent` links from the dentry up to `sb->s_root`; here the walk visits the chain
    from its end back to its start. */
module Dentry {
  import opened Base
  import opened CString
  import opened Helpers

  // ---------------------------------------------------------------------------------
  // reverse_path

  /** The last '/' of `s`, if any. */
  function LastSlash(s: String): (r: Option<nat>)
    ensures r.Some? ==> r.value < |s| && s[r.value] == '/'
    ensures r.Some? ==> forall p :: r.value < p < |s| ==> s[p] != '/'
    ensures r.None? ==> forall p :: 0 <= p < |s| ==> s[p] != '/'
  {
    if s == [] then None
    else if s[|s| - 1] == '/' then Some(|s| - 1)
    else LastSlash(s[..|s| - 1])
  }

  /** A segment as `reverse_path` writes it: '/' and the segment, or nothing if empty. */
  function Piece(seg: String): String
  {
    if seg == [] then [] else "/" + seg
  }

  /** `reverse_path`: the '/'-separated segments of `s` from the last to the first, each
      written as `Piece`, so empty segments vanish. */
  function ReversedPath(s: String): String
    decreases |s|
  {
    match LastSlash(s)
    case None => Piece(s)
    case Some(k) => Piece(s[k + 1..]) + ReversedPath(s[..k])
  }

  /** Where the last '/' is, the search says so. */
  lemma LastSlashAt(s: String, k: nat)
    requires k < |s| && s[k] == '/'
    requires forall p :: k < p < |s| ==> s[p] != '/'
    ensures LastSlash(s) == Some(k)
  {
    if s[|s| - 1] != '/' {
      LastSlashAt(s[..|s| - 1], k);
    }
  }

  /** Cutting at the last '/': the segment after it comes first. */
  lemma ReversedPathAt(s: String, k: nat)
    requires k < |s| && s[k] == '/'
    requires forall p :: k < p < |s| ==> s[p] != '/'
    ensures ReversedPath(s) == Piece(s[k + 1..]) + ReversedPath(s[..k])
  {
    LastSlashAt(s, k);
  }

  /** Without any '/', the whole text is one segment. */
  lemma ReversedPathNoSlash(s: String)
    requires forall p :: 0 <= p < |s| ==> s[p] != '/'
    ensures ReversedPath(s) == Piece(s)
  {
  }

  /** `'/'` then `len` bytes of `src` from `start`, unless there are none. */
  method AppendPiece(reversed: SfsString, src: array<char>, start: nat, end: nat)
    requires reversed.Valid() && reversed.memlen > 0 && reversed.data != src
    requires start <= end <= src.Length
    modifies reversed, reversed.data
    ensures reversed.Valid() && reversed.memlen > 0
    ensures reversed.data == old(reversed.data) || fresh(reversed.data)
    ensures reversed.Text() == old(reversed.Text()) + Piece(src[start..end])
  {
    if end > start {
      var _ := reversed.Cat("/");
      var _ := reversed.Ncat(src[start..end], end - start);
    }
  }

  /** A '/' at `i` with none up to `end`: the segment in between is the next one written. */
  lemma ReversedPrefixAt(s: String, i: nat, end: nat)
    requires i < end <= |s| && s[i] == '/'
    requires forall p :: i < p < end ==> s[p] != '/'
    ensures ReversedPath(s[..end]) == Piece(s[i + 1..end]) + ReversedPath(s[..i])
  {
    var t := s[..end];
    ReversedPathAt(t, i);
    assert t[i + 1..] == s[i + 1..end] && t[..i] == s[..i];
  }

  /** No '/' before `end`: the prefix is the last segment written. */
  lemma ReversedPrefixNoSlash(s: String, end: nat)
    requires end <= |s|
    requires forall p :: 0 <= p < end ==> s[p] != '/'
    ensures ReversedPath(s[..end]) == Piece(s[..end])
  {
    ReversedPathNoSlash(s[..end]);
  }

  /** At a '/' in position `i`: the segment after it, up to `end`, is appended. */
  method AppendSegmentAt(src: array<char>, reversed: SfsString, ghost s: String, i: nat, end: nat)
    requires reversed.Valid() && reversed.memlen > 0 && reversed.data != src
    requires |s| <= src.Length && s == src[..|s|]
    requires i < end <= |s| && s[i] == '/'
    requires forall p :: i < p < end ==> s[p] != '/'
    modifies reversed, reversed.data
    ensures reversed.Valid() && reversed.memlen > 0
    ensures reversed.data == old(reversed.data) || fresh(reversed.data)
    ensures reversed.Text() + ReversedPath(s[..i]) == old(reversed.Text()) + ReversedPath(s[..end])
  {
    ghost var before := reversed.Text();
    assert src[i + 1..end] == s[i + 1..end];
    AppendPiece(reversed, src, i + 1, end);
    SegmentStep(s, i, end, before, reversed.Text());
  }

  /** The text after appending the segment that follows the '/' at `i`. */
  lemma SegmentStep(s: String, i: nat, end: nat, before: String, after: String)
    requires i < end <= |s| && s[i] == '/'
    requires forall p :: i < p < end ==> s[p] != '/'
    requires after == before + Piece(s[i + 1..end])
    ensures after + ReversedPath(s[..i]) == before + ReversedPath(s[..end])
  {
    var seg, tail := Piece(s[i + 1..end]), ReversedPath(s[..i]);
    ReversedPrefixAt(s, i, end);
    ConcatAssoc(before, seg, tail);
  }

  /** At the start of the string: the first segment, up to `end`, is appended. */
  method AppendFirstSegment(src: array<char>, reversed: SfsString, ghost s: String, end: nat)
    requires reversed.Valid() && reversed.memlen > 0 && reversed.data != src
    requires |s| <= src.Length && s == src[..|s|]
    requires end <= |s|
    requires forall p :: 0 <= p < end ==> s[p] != '/'
    modifies reversed, reversed.data
    ensures reversed.Valid() && reversed.memlen > 0
    ensures reversed.data == old(reversed.data) || fresh(reversed.data)
    ensures reversed.Text() == old(reversed.Text()) + ReversedPath(s[..end])
  {
    ReversedPrefixNoSlash(s, end);
    assert src[..end] == s[..end];
    AppendPiece(reversed, src, 0, end);
  }

  /** One position of the backward scan of `reverse_path`: at a '/' (or at the start) the
      segment up to `end` is appended; the scan stops after the start. */
  method ReverseStep(src: array<char>, reversed: SfsString, ghost s: String, n: nat, i: nat, end: nat)
    returns (newEnd: nat, done: bool)
    requires reversed.Valid() && reversed.memlen > 0 && reversed.data != src
    requires n == |s| <= src.Length && s == src[..n]
    requires i <= end <= |s| && (i < end || i == |s|)
    requires forall p :: i < p < end ==> s[p] != '/'
    modifies reversed, reversed.data
    ensures reversed.Valid() && reversed.memlen > 0
    ensures reversed.data == old(reversed.data) || fresh(reversed.data)
    ensures done <==> i == 0
    ensures !done ==> i - 1 <= newEnd <= |s| && i - 1 < newEnd
    ensures !done ==> forall p :: i - 1 < p < newEnd ==> s[p] != '/'
    ensures done ==> reversed.Text() == old(reversed.Text()) + ReversedPath(s[..end])
    ensures !done ==> reversed.Text() + ReversedPath(s[..newEnd]) == old(reversed.Text()) + ReversedPath(s[..end])
  {
    // the terminator at index n is never '/'
    var slash := i < n && src[i] == '/';
    newEnd := end;
    if slash {
      AppendSegmentAt(src, reversed, s, i, end);
      newEnd := i;
      if i == 0 {
        assert s[..0] == [];
        assert ReversedPath(s[..newEnd]) == [];
      }
    } else if i == 0 {
      AppendFirstSegment(src, reversed, s, end);
    }
    done := i == 0;
  }

  /** `reverse_path` on a string with text `path.Text()`: the string is scanned from the
      terminator back to the start; at each '/' (and at the start) the segment after it is
      appended with a leading '/'. */
  method ReversePath(path: SfsString, reversed: SfsString) returns (ret: int)
    requires path.Valid() && reversed.Valid() && path != reversed && path.data != reversed.data
    modifies reversed, reversed.data
    ensures reversed.Valid() && (reversed.data == old(reversed.data) || fresh(reversed.data))
    ensures old(reversed.memlen) == 0 ==> ret == EINVAL
    ensures old(reversed.memlen) > 0 ==> ret == 0 && reversed.Text() == ReversedPath(path.Text())
  {
    ret := reversed.Clear();
    if ret != 0 {
      return;
    }
    ghost var s := path.Text();
    var n := path.textlen;
    var end: nat := n;
    var i: nat := n;
    var done := false;
    assert s[..end] == s;
    while !done
      invariant s == path.data[..n] && n <= path.data.Length
      invariant reversed.Valid() && reversed.memlen > 0 && reversed.data != path.data
      invariant reversed.data == old(reversed.data) || fresh(reversed.data)
      invariant !done ==> i <= end <= n && (i < end || i == n)
      invariant !done ==> forall p :: i < p < end ==> s[p] != '/'
      invariant !done ==> reversed.Text() + ReversedPath(s[..end]) == ReversedPath(s)
      invariant done ==> reversed.Text() == ReversedPath(s)
      decreases i + (if done then 0 else 1)
    {
      end, done := ReverseStep(path.data, reversed, s, n, i, end);
      if !done {
        i := i - 1;
      }
    }
  }

  // ---------------------------------------------------------------------------------
  // get_relative_dentry_path

  /** The text `get_relative_dentry_path` collects before reversing: the names from the
      dentry up to the child of the root, each followed by '/'. */
  function Collected(chain: seq<String>): String
  {
    if chain == [] then [] else Collected(chain[1..]) + chain[0] + "/"
  }

  /** A dentry's path from the mount root: "/" and each name, from the root down. */
  function TreePath(chain: seq<String>): String
  {
    if chain == [] then [] else Piece(chain[0]) + TreePath(chain[1..])
  }

  predicate NoSlash(name: String)
  {
    forall i :: 0 <= i < |name| ==> name[i] != '/'
  }

  /** The segment after the last '/' comes first. */
  lemma ReversedPathSlash(a: String, b: String)
    requires NoSlash(b)
    ensures ReversedPath(a + "/" + b) == Piece(b) + ReversedPath(a)
  {
    var s := a + "/" + b;
    ReversedPathAt(s, |a|);
    assert s[|a| + 1..] == b && s[..|a|] == a;
  }

  /** Reversing what the walk collects, followed by one more name, puts that name first. */
  lemma {:induction false} ReversedCollectedThen(chain: seq<String>, name: String)
    requires forall i :: 0 <= i < |chain| ==> NoSlash(chain[i])
    requires NoSlash(name)
    ensures ReversedPath(Collected(chain) + name) == Piece(name) + TreePath(chain)
  {
    if chain == [] {
      assert Collected(chain) + name == name;
      ReversedPathNoSlash(name);
    } else {
      var c := Collected(chain[1..]);
      assert Collected(chain) + name == (c + chain[0]) + "/" + name;
      ReversedPathSlash(c + chain[0], name);
      assert NoSlash(chain[0]);
      ReversedCollectedThen(chain[1..], chain[0]);
    }
  }

  /** Reversing what the walk collects gives the path from the root. */
  lemma ReversedCollected(chain: seq<String>)
    requires forall i :: 0 <= i < |chain| ==> NoSlash(chain[i])
    ensures ReversedPath(Collected(chain)) == TreePath(chain)
  {
    var x := Collected(chain);
    var y := TreePath(chain);
    assert x + [] == x;
    assert Piece([]) + y == y;
    ReversedCollectedThen(chain, []);
  }

  /** `get_relative_dentry_path` for the dentry with `chain`: the walk appends each name and
      '/' to a 256-byte string, which is then reversed into `path`. */
  method GetRelativeDentryPath(chain: seq<String>, path: SfsString) returns (ret: int)
    requires path.Valid()
    modifies path, path.data
    ensures path.Valid() && (path.data == old(path.data) || fresh(path.data))
    ensures old(path.memlen) == 0 ==> ret == EINVAL
    ensures old(path.memlen) > 0 ==> ret == 0 && path.Text() == ReversedPath(Collected(chain))
  {
    ret := path.Clear();
    if ret != 0 {
      return;
    }
    var tmp := new SfsString.Createz(256);
    var i := |chain|;
    while i > 0
      invariant 0 <= i <= |chain|
      invariant tmp.Valid() && tmp.memlen > 0 && fresh(tmp) && fresh(tmp.data)
      invariant path.Valid() && path.memlen > 0 && path.data == old(path.data)
      invariant tmp.Text() == Collected(chain[i..])
    {
      i := i - 1;
      ret := tmp.Cat(chain[i]);
      ret := tmp.Cat("/");
      assert chain[i..][1..] == chain[i + 1..];
    }
    ret := ReversePath(tmp, path);
  }

  /** For names without '/', the path is "" at the root and "/" ++ the names joined with "/"
      below it. */
  lemma RelativeDentryPath(chain: seq<String>)
    requires forall i :: 0 <= i < |chain| ==> NoSlash(chain[i]) && chain[i] != []
    ensures chain == [] ==> ReversedPath(Collected(chain)) == []
    ensures chain != [] ==> ReversedPath(Collected(chain)) == "/" + chain[0] + ReversedPath(Collected(chain[1..]))
  {
    ReversedCollected(chain);
    if chain != [] {
      ReversedCollected(chain[1..]);
    }
  }

  /** Cutting a tree path at its '/'s. */
  function SplitTreePath(s: String): seq<String>
    decreases |s|
  {
    if s == [] || s[0] != '/' then []
    else
      match IndexOf(s, "/", 1)
      case None => [s[1..]]
      case Some(j) => [s[1..j]] + SplitTreePath(s[j..])
  }

  /** Names are never empty and never hold '/', so a tree path splits back into exactly the
      names it was made of. */
  lemma {:induction false} SplitTreePathInverse(chain: seq<String>)
    requires forall i :: 0 <= i < |chain| ==> NoSlash(chain[i]) && chain[i] != []
    ensures SplitTreePath(TreePath(chain)) == chain
  {
    if chain != [] {
      var rest := TreePath(chain[1..]);
      var s := "/" + chain[0] + rest;
      assert TreePath(chain) == s;
      var j := 1 + |chain[0]|;
      forall p | 1 <= p < j
        ensures !OccursAt(s, "/", p)
      {
        assert s[p] == chain[0][p - 1];
        Mismatch(s, "/", p, 0);
      }
      assert s[1..j] == chain[0];
      assert s[j..] == rest;
      if chain[1..] == [] {
        IndexOfMisses(s, "/", 1);
        assert s[1..] == chain[0];
      } else {
        assert rest[0] == '/';
        assert OccursAt(s, "/", j) by { assert s[j..j + 1] == rest[..1]; }
        IndexOfFinds(s, "/", 1, j);
        SplitTreePathInverse(chain[1..]);
      }
    }
  }

  // ---------------------------------------------------------------------------------
  // get_relative_path_to_surffs_root

  /** `depth` copies of "../". */
  function UpDirs(depth: nat): (s: String)
    ensures |s| == 3 * depth
  {
    if depth == 0 then [] else "../" + UpDirs(depth - 1)
  }

  /** The way back to the mount root from a dentry `depth` levels below it: "", "..",
      "../..", and so on. */
  function PathToRoot(depth: nat): (s: String)
    ensures depth > 0 ==> |s| == 3 * depth - 1
    ensures depth == 0 ==> s == []
  {
    if depth == 0 then [] else UpDirs(depth)[..3 * depth - 1]
  }

  /** One level deeper puts one more "../" in front. */
  lemma PathToRootStep(depth: nat)
    requires depth > 0
    ensures PathToRoot(depth + 1) == "../" + PathToRoot(depth)
  {
    assert UpDirs(depth + 1)[..3 * depth + 2] == "../" + UpDirs(depth)[..3 * depth - 1];
  }

  /** `get_relative_path_to_surffs_root` for a dentry with `chain`: one "../" per name, then
      the last '/' is cut off. */
  method GetRelativePathToRoot(chain: seq<String>, path: SfsString) returns (ret: int)
    requires path.Valid()
    modifies path, path.data
    ensures path.Valid() && (path.data == old(path.data) || fresh(path.data))
    ensures old(path.memlen) == 0 ==> ret == EINVAL
    ensures old(path.memlen) > 0 ==> ret == 0 && path.memlen > 0 && path.Text() == PathToRoot(|chain|)
  {
    ret := path.Clear();
    if ret != 0 {
      return;
    }
    var i := |chain|;
    while i > 0
      invariant 0 <= i <= |chain|
      invariant path.Valid() && path.memlen > 0
      invariant path.data == old(path.data) || fresh(path.data)
      invariant path.Text() == UpDirs(|chain| - i)
    {
      ret := path.Cat("../");
      i := i - 1;
      UpDirsAppend(|chain| - i - 1);
    }
    if path.textlen > 0 {
      DropLast(path);
    }
  }

  /** The last character is overwritten with the terminator. */
  method DropLast(path: SfsString)
    requires path.Valid() && path.textlen > 0
    modifies path, path.data
    ensures path.Valid() && path.data == old(path.data) && path.memlen == old(path.memlen)
    ensures path.Text() == old(path.Text())[..old(path.textlen) - 1]
  {
    path.data[path.textlen - 1] := '\0';
    path.textlen := path.textlen - 1;
  }

  /** "../" can be added at either end. */
  lemma {:induction false} UpDirsAppend(depth: nat)
    ensures UpDirs(depth) + "../" == UpDirs(depth + 1)
  {
    if depth > 0 {
      UpDirsAppend(depth - 1);
    }
  }
}
