/** The growable string buffer `sfs_string` of src/surffs_helpers.c.

    The buffer is a heap array `data` of `memlen` bytes holding `textlen` bytes of text;
    the terminating NUL sits at index `textlen` and is left implicit here. Growth is
    exact-fit: an append that does not fit reallocates to exactly text + new bytes + 1.
    A zeroed string (`{0}`) has no buffer at all; it is modelled by an empty array. */
module Helpers {
  import opened Base

  /** The capacity an append of `n` bytes leaves behind (the growth rule of `cat`/`ncat`). */
  function GrownMemlen(memlen: nat, textlen: nat, n: nat): (m: nat)
    requires textlen + 1 <= memlen
    ensures m >= memlen && m >= textlen + n + 1
    ensures m == memlen || m == textlen + n + 1
    ensures m == memlen <==> textlen + n + 1 <= memlen
  {
    if n > memlen - textlen - 1 then memlen + (n - (memlen - textlen - 1)) else memlen
  }

  class SfsString {
    var data: array<char>
    var textlen: nat
    var memlen: nat

    /** The buffer is exactly `memlen` bytes; a live string keeps room for its terminator. */
    ghost predicate Valid()
      reads this
    {
      && data.Length == memlen
      && (memlen == 0 ==> textlen == 0)
      && (memlen > 0 ==> textlen + 1 <= memlen)
    }

    /** The text the string holds. */
    function Text(): (t: String)
      reads this, data
      requires Valid()
      ensures |t| == textlen
    {
      data[..textlen]
    }

    /** `sfs_string s = {0}`: no buffer, no text. */
    constructor Zero()
      ensures Valid() && fresh(data)
      ensures memlen == 0 && textlen == 0
    {
      data := new char[0];
      memlen, textlen := 0, 0;
    }

    /** `sfs_string_createz` on a fresh struct: an empty text in a buffer of `allocLen` bytes. */
    constructor Createz(allocLen: nat)
      requires allocLen > 0
      ensures Valid() && fresh(data)
      ensures memlen == allocLen && Text() == []
    {
      data := new char[allocLen];
      memlen, textlen := allocLen, 0;
    }

    /** `sfs_string_create`: a copy of `src` in a buffer of exactly `|src| + 1` bytes;
        an empty source is refused and leaves the string zeroed. */
    method Create(src: String) returns (ret: int)
      modifies this
      ensures Valid() && fresh(data)
      ensures |src| == 0 ==> ret == EINVAL && memlen == 0 && textlen == 0
      ensures |src| > 0 ==> ret == 0 && Text() == src && memlen == |src| + 1
    {
      if |src| == 0 {
        data := new char[0];
        memlen, textlen := 0, 0;
        return EINVAL;
      }
      var buf := new char[|src| + 1];
      var i := 0;
      while i < |src|
        invariant 0 <= i <= |src|
        invariant buf[..i] == src[..i]
      {
        buf[i] := src[i];
        i := i + 1;
      }
      buf[|src|] := '\0';
      data := buf;
      memlen, textlen := |src| + 1, |src|;
      ret := 0;
    }

    /** `sfs_string_createz` on an existing struct: refuses a zero size and leaves the string
        zeroed; otherwise an empty text in a buffer of exactly `allocLen` bytes. */
    method CreatezIn(allocLen: nat) returns (ret: int)
      modifies this
      ensures Valid() && fresh(data)
      ensures allocLen == 0 ==> ret == EINVAL && memlen == 0 && textlen == 0
      ensures allocLen > 0 ==> ret == 0 && Text() == [] && memlen == allocLen
    {
      if allocLen == 0 {
        data := new char[0];
        memlen, textlen := 0, 0;
        return EINVAL;
      }
      data := new char[allocLen];
      data[0] := '\0';
      memlen, textlen := allocLen, 0;
      ret := 0;
    }

    /** `sfs_string_expandmem`: only growth is allowed; the buffer is reallocated to exactly
        `newAllocLen` bytes and its old contents are copied over. */
    method Expandmem(newAllocLen: nat) returns (ret: int)
      requires Valid()
      modifies this, data
      ensures Valid()
      ensures newAllocLen <= old(memlen) ==> ret == EINVAL && data == old(data) && memlen == old(memlen)
      ensures newAllocLen > old(memlen) ==> ret == 0 && fresh(data) && memlen == newAllocLen
      ensures textlen == old(textlen) && Text() == old(Text())
    {
      if newAllocLen <= memlen {
        return EINVAL;
      }
      var buf := new char[newAllocLen];
      var i := 0;
      while i < memlen
        invariant 0 <= i <= memlen
        invariant buf[..i] == data[..i]
        modifies buf
      {
        buf[i] := data[i];
        i := i + 1;
      }
      assert buf[..textlen] == buf[..memlen][..textlen] && data[..textlen] == data[..memlen][..textlen];
      data := buf;
      memlen := newAllocLen;
      ret := 0;
    }

    /** `sfs_string_ncat`: appends exactly the first `len` bytes of `src`, growing the buffer
        to an exact fit when they do not fit. */
    method Ncat(src: String, len: nat) returns (ret: int)
      requires Valid() && memlen > 0 && len <= |src|
      modifies this, data
      ensures Valid() && ret == 0
      ensures data == old(data) || fresh(data)
      ensures Text() == old(Text()) + src[..len]
      ensures textlen == old(textlen) + len
      ensures memlen == GrownMemlen(old(memlen), old(textlen), len)
    {
      var newCharsMax := memlen - textlen - 1;
      if len > newCharsMax {
        var newmemlen := memlen + (len - newCharsMax);
        ret := Expandmem(newmemlen);
        // Expansion to a strictly larger size cannot fail (allocation failure is not modelled).
        memlen := newmemlen;
      }
      ghost var before := data[..textlen];
      var i := 0;
      while i < len
        invariant 0 <= i <= len
        invariant data.Length == memlen && textlen + len + 1 <= memlen
        invariant data[..textlen] == before
        invariant data[textlen..textlen + i] == src[..i]
        modifies data
      {
        data[textlen + i] := src[i];
        i := i + 1;
      }
      data[textlen + len] := '\0';
      assert data[..textlen + len] == before + src[..len] by {
        assert data[..textlen + len] == data[..textlen] + data[textlen..textlen + len];
      }
      textlen := textlen + len;
      ret := 0;
    }

    /** `sfs_string_cat`: appends all of `src` with the same growth rule as `Ncat`
        (the source repeats Ncat's body with `len = strlen(data)`). */
    method Cat(src: String) returns (ret: int)
      requires Valid() && memlen > 0
      modifies this, data
      ensures Valid() && ret == 0
      ensures data == old(data) || fresh(data)
      ensures Text() == old(Text()) + src
      ensures textlen == old(textlen) + |src|
      ensures memlen == GrownMemlen(old(memlen), old(textlen), |src|)
    {
      ret := Ncat(src, |src|);
      assert src[..|src|] == src;
    }

    /** `sfs_string_clear`: empties the text, keeping the buffer; a string without a buffer
        is refused. */
    method Clear() returns (ret: int)
      requires Valid()
      modifies this, data
      ensures Valid() && data == old(data) && memlen == old(memlen)
      ensures old(memlen) == 0 ==> ret == EINVAL && textlen == old(textlen)
      ensures old(memlen) > 0 ==> ret == 0 && Text() == []
    {
      if memlen == 0 {
        return EINVAL;
      }
      data[0] := '\0';
      textlen := 0;
      ret := 0;
    }

    /** `sfs_string_set`: `Clear` followed by `Cat`, so the text becomes `src`. */
    method Set(src: String) returns (ret: int)
      requires Valid()
      modifies this, data
      ensures Valid()
      ensures data == old(data) || fresh(data)
      ensures old(memlen) == 0 ==> ret == EINVAL && memlen == 0 && textlen == 0
      ensures old(memlen) > 0 ==> ret == 0 && Text() == src
      ensures old(memlen) > 0 ==> memlen == GrownMemlen(old(memlen), 0, |src|)
    {
      ret := Clear();
      if ret != 0 {
        return;
      }
      ret := Cat(src);
    }

    /** `sfs_string_insert_begin`: the text becomes `prefix` followed by the old text. The
        old text is first copied with `sfs_string_create`, so an empty text is refused. */
    method InsertBegin(prefix: String) returns (ret: int)
      requires Valid()
      modifies this, data
      ensures Valid()
      ensures data == old(data) || fresh(data)
      ensures old(textlen) == 0 ==> ret == EINVAL && Text() == old(Text()) && memlen == old(memlen)
      ensures old(textlen) > 0 ==> ret == 0 && Text() == prefix + old(Text())
    {
      var tmp := new SfsString.Zero();
      ret := tmp.Create(Text());
      if ret != 0 {
        tmp.Free();
        return;
      }
      ret := Set(prefix);
      ret := Cat(tmp.Text());
      tmp.Free();
    }

    /** `sfs_string_free`: releases the buffer and zeroes both lengths. */
    method Free()
      modifies this
      ensures Valid() && fresh(data) && memlen == 0 && textlen == 0
    {
      data := new char[0];
      memlen, textlen := 0, 0;
    }
  }
}
