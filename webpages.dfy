/** The page cache of src/surffs_webpages.c: the global `webpages_list` of fetched pages,
    looked up by address before anything is fetched. */
module WebPages {
  import opened Base
  import opened Socket
  import opened WebTypes
  import opened Internet

  /** `cmp_web_address`: path, host and ip compared as strings, in that order. */
  function SameAddress(a1: WebAddress, a2: WebAddress): bool
  {
    if a1.path != a2.path then false
    else if a1.host != a2.host then false
    else a1.ip == a2.ip
  }

  /** Two addresses compare equal exactly when they are the same address. */
  lemma SameAddressIff(a1: WebAddress, a2: WebAddress)
    ensures SameAddress(a1, a2) <==> a1 == a2
  {
  }

  /** The miss path of `get_webpage`: a new page is allocated and obtained; on a non-zero
      return it is released, so none is returned. */
  method FetchPage(address: WebAddress, net: NetOutcome) returns (ret: int, page: WebPage?)
    ensures ret != 0 ==> page == null
    ensures ret == 0 ==> page != null && fresh(page) && page.Valid()
                         && page.address == address && page.status != StatusNeedGet
  {
    var p := new WebPage.Alloc();
    ret := ObtainWebpage(address, p, net);
    if ret != 0 {
      return ret, null;
    }
    page := p;
  }

  /** `webpages_list`: pages in list order, the most recently added first. */
  class PageCache {
    var pages: seq<WebPage>

    /** At most one cached page per address. */
    ghost predicate Unique()
      reads this, pages
    {
      forall i, j :: 0 <= i < j < |pages| ==> pages[i].address != pages[j].address
    }

    /** `LIST_HEAD(webpages_list)`: an empty cache. */
    constructor ()
      ensures pages == [] && Unique()
    {
      pages := [];
    }

    /** `find_webpage`: the first page in list order whose address compares equal, or null. */
    method Find(address: WebAddress) returns (p: WebPage?)
      ensures p == null <==> forall i :: 0 <= i < |pages| ==> pages[i].address != address
      ensures p != null ==> exists i :: 0 <= i < |pages| && pages[i] == p && p.address == address
                                        && forall j :: 0 <= j < i ==> pages[j].address != address
    {
      var i := 0;
      while i < |pages|
        invariant 0 <= i <= |pages|
        invariant forall j :: 0 <= j < i ==> pages[j].address != address
      {
        if SameAddress(pages[i].address, address) {
          SameAddressIff(pages[i].address, address);
          return pages[i];
        }
        i := i + 1;
      }
      return null;
    }

    /** `add_webpage`: `list_add` puts the page at the head of the list. */
    method Add(page: WebPage)
      modifies this
      ensures pages == [page] + old(pages)
    {
      pages := [page] + pages;
    }

    /** `get_webpage`: a cached page with the address if there is one; otherwise a new page
        is allocated and fetched (`net` standing for what the network does), and cached only
        if fetching it returned 0. */
    method Get(address: WebAddress, net: NetOutcome) returns (ret: int, page: WebPage?)
      modifies this
      ensures old(Unique()) ==> Unique()
      ensures (exists i :: 0 <= i < |old(pages)| && old(pages)[i].address == address) ==>
                && ret == 0 && pages == old(pages) && page != null && page in pages && page.address == address
      ensures (forall i :: 0 <= i < |old(pages)| ==> old(pages)[i].address != address) ==>
                && (ret != 0 ==> page == null && pages == old(pages))
                && (ret == 0 ==> page != null && fresh(page) && pages == [page] + old(pages)
                                 && page.address == address && page.status != StatusNeedGet && page.Valid())
    {
      page := Find(address);
      if page != null {
        return 0, page;
      }
      var p;
      ret, p := FetchPage(address, net);
      if ret != 0 {
        return ret, null;
      }
      Add(p);
      page := p;
    }

    /** `free_webpages`: every page's link list is emptied and the cache is left empty. */
    method FreeAll()
      modifies this, pages
      ensures pages == []
      ensures forall p :: p in old(pages) ==> p.links == []
    {
      var i := 0;
      while i < |pages|
        invariant 0 <= i <= |pages| && pages == old(pages)
        invariant forall j :: 0 <= j < i ==> pages[j].links == []
      {
        pages[i].links := [];
        i := i + 1;
      }
      pages := [];
    }
  }
}
