/** The C library string searches the core relies on (`strstr`, `strchr`, `strncmp`),
    stated over whole strings with absolute indices: a search that starts at
    `s + from` is `IndexOf(s, pat, from)`. */
module CString {
  import opened Base

  /** `pat` occurs in `s` starting at index `i`: `strncmp(s + i, pat, strlen(pat)) == 0`. */
  predicate OccursAt(s: String, pat: String, i: nat)
  {
    i + |pat| <= |s| && s[i..i + |pat|] == pat
  }

  /** `strstr(s + from, pat)`: the first occurrence of `pat` at or after `from`. */
  function IndexOf(s: String, pat: String, from: nat): (r: Option<nat>)
    requires from <= |s|
    ensures r.Some? ==> from <= r.value <= |s| && OccursAt(s, pat, r.value)
    decreases |s| - from
  {
    if OccursAt(s, pat, from) then Some(from)
    else if from == |s| then None
    else IndexOf(s, pat, from + 1)
  }

  /** `strstr` finds the first occurrence: none lies between `from` and the index found,
      and there is none at all when nothing is found. */
  lemma {:induction false} IndexOfFirst(s: String, pat: String, from: nat)
    requires from <= |s|
    ensures IndexOf(s, pat, from).Some? ==>
              forall j :: from <= j < IndexOf(s, pat, from).value ==> !OccursAt(s, pat, j)
    ensures IndexOf(s, pat, from).None? ==> forall j :: from <= j <= |s| ==> !OccursAt(s, pat, j)
    decreases |s| - from
  {
    if !OccursAt(s, pat, from) && from < |s| {
      IndexOfFirst(s, pat, from + 1);
    }
  }

  /** An occurrence of `pat` at `k` is found by every search started at or before `k`
      and after all earlier occurrences. */
  lemma {:induction false} IndexOfFinds(s: String, pat: String, from: nat, k: nat)
    requires from <= k <= |s| && OccursAt(s, pat, k)
    requires forall j :: from <= j < k ==> !OccursAt(s, pat, j)
    ensures IndexOf(s, pat, from) == Some(k)
    decreases k - from
  {
    if from < k {
      IndexOfFinds(s, pat, from + 1, k);
    }
  }

  /** A one-character pattern occurs exactly where that character is. */
  lemma OccursAtChar(s: String, c: char, i: nat)
    requires i < |s|
    ensures OccursAt(s, [c], i) <==> s[i] == c
  {
    assert s[i..i + 1][0] == s[i];
    if s[i] == c {
      assert s[i..i + 1] == [c];
    }
  }

  /** One differing character rules out an occurrence. */
  lemma Mismatch(s: String, pat: String, j: nat, i: nat)
    requires i < |pat| && j + i < |s| && s[j + i] != pat[i]
    ensures !OccursAt(s, pat, j)
  {
    if j + |pat| <= |s| {
      assert s[j..j + |pat|][i] == s[j + i];
    }
  }

  /** Without any occurrence from `from` on, the search finds nothing. */
  lemma {:induction false} IndexOfMisses(s: String, pat: String, from: nat)
    requires from <= |s|
    requires forall j :: from <= j <= |s| ==> !OccursAt(s, pat, j)
    ensures IndexOf(s, pat, from) == None
    decreases |s| - from
  {
    if from < |s| {
      IndexOfMisses(s, pat, from + 1);
    }
  }
}
