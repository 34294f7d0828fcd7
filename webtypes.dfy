/** The records of src/surffs_webpages.h: links, addresses, pages and page status.
    The `sfs_string` fields of these records are modelled by the text they hold. */
module WebTypes {
  import opened Base

  datatype WebStatus = StatusOk | StatusHttpError | StatusNeedGet

  const STATUS_OK_STR: String := "ok"
  const STATUS_HTTP_ERROR_STR: String := "error"
  const STATUS_NEED_GET_STR: String := "unknown"

  /** The text of the `status` file for each status. */
  function StatusText(s: WebStatus): String
  {
    match s
    case StatusOk => STATUS_OK_STR
    case StatusHttpError => STATUS_HTTP_ERROR_STR
    case StatusNeedGet => STATUS_NEED_GET_STR
  }

  /** `struct SURFFS_HTML_LINK`: one outbound link of a page. */
  datatype HtmlLink = HtmlLink(title: String, protocol: String, host: String, path: String, fullUrl: String)

  /** `struct SURFFS_WEB_ADDRESS`: where a page is fetched from. */
  datatype WebAddress = WebAddress(ip: String, host: String, path: String)

  /** `struct SURFFS_WEB_PAGE`. `payload` is the offset of the body inside `httpResp`
      (the source keeps the address of that byte of the response buffer); `links` is the page's
      `html_links` list in list order. */
  class WebPage {
    var address: WebAddress
    var status: WebStatus
    var httpResp: String
    var payload: Option<nat>
    var links: seq<HtmlLink>
    var log: String
    var fullUrl: String
    var statusStr: String

    /** The status text always matches the status, and the payload offset lies inside the
        response; a page has a payload exactly when it was fetched successfully. */
    ghost predicate Valid()
      reads this
    {
      && statusStr == StatusText(status)
      && (payload.Some? ==> payload.value <= |httpResp|)
      && (status == StatusOk <==> payload.Some?)
    }

    /** The body: the text of the response from the payload offset on, or nothing. */
    function Body(): (b: String)
      reads this
      requires Valid()
      ensures payload.None? ==> b == []
      ensures payload.Some? ==> httpResp == httpResp[..payload.value] + b
    {
      if payload.None? then [] else httpResp[payload.value..]
    }

    /** `SURFFS_WEB_PAGE_alloc`: a page that still has to be fetched, with status text
        "unknown", empty buffers and no links. */
    constructor Alloc()
      ensures Valid() && status == StatusNeedGet && statusStr == STATUS_NEED_GET_STR
      ensures address == WebAddress([], [], []) && httpResp == [] && payload.None?
      ensures links == [] && log == [] && fullUrl == []
    {
      address := WebAddress([], [], []);
      status := StatusNeedGet;
      httpResp, payload := [], None;
      links := [];
      log, fullUrl := [], [];
      statusStr := STATUS_NEED_GET_STR;
    }
  }
}
