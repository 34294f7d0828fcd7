/** Turning a page address into a fetched page with its outbound links
    (src/surffs_internet.c): which links are kept, how they are numbered, and how the
    page's status follows from the fetch. */
module Internet {
  import opened Base
  import opened CString
  import opened Parser
  import opened Socket
  import opened Helpers
  import opened WebTypes

  /** `supported_protocols`: the protocols a link may name, besides none at all. */
  const SUPPORTED_PROTOCOLS: seq<String> := ["http"]

  /** The table walk of `is_valid_protocol` from entry `i` on. */
  function ProtocolListed(protocol: String, table: seq<String>, i: nat): (b: bool)
    requires i <= |table|
    decreases |table| - i
  {
    if i == |table| then false
    else if protocol == table[i] then true
    else ProtocolListed(protocol, table, i + 1)
  }

  lemma {:induction false} ProtocolListedIff(protocol: String, table: seq<String>, i: nat)
    requires i <= |table|
    ensures ProtocolListed(protocol, table, i) <==> protocol in table[i..]
    decreases |table| - i
  {
    if i < |table| {
      ProtocolListedIff(protocol, table, i + 1);
      assert table[i..] == [table[i]] + table[i + 1..];
    }
  }

  /** `is_valid_protocol`: an empty protocol (a relative link) or a listed one. */
  function IsValidProtocol(protocol: String): bool
  {
    protocol == [] || ProtocolListed(protocol, SUPPORTED_PROTOCOLS, 0)
  }

  /** Only the empty protocol and "http" are accepted. */
  lemma ValidProtocols(protocol: String)
    ensures IsValidProtocol(protocol) <==> protocol == [] || protocol == "http"
  {
    ProtocolListedIff(protocol, SUPPORTED_PROTOCOLS, 0);
    assert SUPPORTED_PROTOCOLS[0..] == ["http"];
  }

  // ---------------------------------------------------------------------------------
  // check_html_link

  /** The outcome of `check_html_link`: accepted, or the first test the link fails. */
  datatype Verdict = Accepted | EmptyTitle | EmptyUrl | BadProtocol | OtherHost | SamePath

  /** The tests of `check_html_link`, in the order the source makes them. */
  function CheckLink(link: HtmlLink, parent: WebAddress): Verdict
  {
    if link.title == [] then EmptyTitle
    else if link.fullUrl == [] then EmptyUrl
    else if !IsValidProtocol(link.protocol) then BadProtocol
    else if link.host != [] && link.host != parent.host then OtherHost
    else if link.path == parent.path then SamePath
    else Accepted
  }

  /** What `check_html_link` appends to the log: one reason per rejection, nothing on
      acceptance. */
  function CheckLog(link: HtmlLink, parent: WebAddress): String
  {
    var head := "error check link '" + link.fullUrl + "': ";
    match CheckLink(link, parent)
    case Accepted => []
    case EmptyTitle => head + "empty title\n"
    case EmptyUrl => head + "empty url\n"
    case BadProtocol => head + "protocol '" + link.protocol + "' not supported\n"
    case OtherHost => head + "links to another host not supported " + " (parent host = '" + parent.host + "')\n"
    case SamePath => head + "link to same path " + " (parent path = '" + parent.path + "')\n"
  }

  /** A link is accepted exactly when it has a title and a URL, a supported or no protocol,
      no host or the parent's host, and a path other than the parent's. An empty path is
      not refused. */
  lemma CheckLinkIff(link: HtmlLink, parent: WebAddress)
    ensures CheckLink(link, parent) == Accepted <==>
              && link.title != [] && link.fullUrl != []
              && (link.protocol == [] || link.protocol == "http")
              && (link.host == [] || link.host == parent.host)
              && link.path != parent.path
    ensures CheckLink(link, parent) == Accepted <==> CheckLog(link, parent) == []
  {
    ValidProtocols(link.protocol);
  }

  /** A rejection reports the first failed test even when later ones fail too. */
  lemma CheckLinkOrder(link: HtmlLink, parent: WebAddress)
    ensures link.title == [] ==> CheckLink(link, parent) == EmptyTitle
    ensures link.title != [] && link.fullUrl == [] ==> CheckLink(link, parent) == EmptyUrl
    ensures link.title != [] && link.fullUrl != [] && !(link.protocol == [] || link.protocol == "http") ==>
              CheckLink(link, parent) == BadProtocol
    ensures && link.title != [] && link.fullUrl != [] && (link.protocol == [] || link.protocol == "http")
            && link.host != [] && link.host != parent.host
            ==> CheckLink(link, parent) == OtherHost
  {
    ValidProtocols(link.protocol);
  }

  // ---------------------------------------------------------------------------------
  // add_number_to_title

  /** `add_number_to_title`: the title followed by "_link" and the number in decimal. */
  function NumberedTitle(title: String, n: nat): (t: String)
    ensures |t| > |title| + 5 && t[..|title|] == title
  {
    title + "_link" + Decimal(n)
  }

  /** Titles numbered differently are different, whatever they were before. */
  lemma NumberedTitlesDistinct(t1: String, n1: nat, t2: String, n2: nat)
    requires n1 != n2
    ensures NumberedTitle(t1, n1) != NumberedTitle(t2, n2)
  {
    var d1, d2 := Digits(n1), Digits(n2);
    assert Decimal(n1) == d1 && Decimal(n2) == d2;
    assert t1 + "_link" + d1 == t1 + ("_link" + d1);
    assert t2 + "_link" + d2 == t2 + ("_link" + d2);
    SuffixedDistinct(t1, n1, t2, n2);
  }

  /** The case split behind `NumberedTitlesDistinct`, on the text it compares. */
  lemma SuffixedDistinct(t1: String, n1: nat, t2: String, n2: nat)
    requires n1 != n2
    ensures t1 + ("_link" + Digits(n1)) != t2 + ("_link" + Digits(n2))
  {
    var d1, d2 := Digits(n1), Digits(n2);
    if |d1| == |d2| {
      SameLengthDigitsDiffer(t1, n1, t2, n2);
    } else if |d1| < |d2| {
      NoUnderscoreInTail(t1, d1, t2, d2);
    } else {
      NoUnderscoreInTail(t2, d2, t1, d1);
    }
  }

  /** Numbers printed with as many digits end titles differently. */
  lemma SameLengthDigitsDiffer(t1: String, n1: nat, t2: String, n2: nat)
    requires n1 != n2 && |Digits(n1)| == |Digits(n2)|
    ensures t1 + ("_link" + Digits(n1)) != t2 + ("_link" + Digits(n2))
  {
    var d1, d2 := Digits(n1), Digits(n2);
    var s1, s2 := t1 + ("_link" + d1), t2 + ("_link" + d2);
    if s1 == s2 {
      assert d1 == s1[|s1| - |d1|..];
      assert d2 == s2[|s2| - |d2|..];
      DigitsInjective(n1, n2);
    }
  }

  /** The '_' before a shorter number's "link" would fall inside "link" or the digits of a
      longer one. */
  lemma NoUnderscoreInTail(t1: String, d1: String, t2: String, d2: String)
    requires |d1| < |d2|
    requires forall i :: 0 <= i < |d2| ==> '0' <= d2[i] <= '9'
    ensures t1 + ("_link" + d1) != t2 + ("_link" + d2)
  {
    var s1, s2 := t1 + ("_link" + d1), t2 + ("_link" + d2);
    if |s1| == |s2| {
      var p := |t1|;
      var off := p - |t2|;
      assert 0 < off <= |d2|;
      assert s2[p] == ("_link" + d2)[off];
      if off < 5 {
        assert ("_link" + d2)[off] == "_link"[off];
      } else {
        assert ("_link" + d2)[off] == d2[off - 5];
      }
      assert s1[p] == '_' != s2[p];
    }
  }

  // ---------------------------------------------------------------------------------
  // make_html_links

  /** What `make_html_links` has built so far: the link list (head first), the log and the
      next number to hand out. */
  datatype Harvest = Harvest(links: seq<HtmlLink>, log: String, next: nat)

  /** The log line of an accepted, numbered link. */
  function AddedLog(link: HtmlLink): String
  {
    "add html link: title = '" + link.title + "' " + "url = '" + link.fullUrl + "'\n"
  }

  /** One `<a>` block: checked, then numbered and put at the head of the list if accepted,
      logged either way. */
  function Visit(link: HtmlLink, parent: WebAddress, h: Harvest): (r: Harvest)
  {
    if CheckLink(link, parent) == Accepted then
      var numbered := link.(title := NumberedTitle(link.title, h.next));
      Harvest([numbered] + h.links, h.log + AddedLog(numbered), h.next + 1)
    else
      Harvest(h.links, h.log + CheckLog(link, parent), h.next)
  }

  /** The link of every `<a>` block of `html` from `pos` on, in document order, as
      `extract_html_link_params` reads it. */
  function LinksOf(html: String, pos: nat): seq<HtmlLink>
    requires pos <= |html|
    decreases |html| - pos
  {
    match HtmlBlock(html, pos, "a")
    case NoMatch => []
    case Found(s, e) => [LinkParams(html[s..e])] + LinksOf(html, e)
  }

  /** The loop of `make_html_links` over the candidate links, in order. */
  function HarvestAll(cands: seq<HtmlLink>, parent: WebAddress, h: Harvest): Harvest
  {
    if cands == [] then h else HarvestAll(cands[1..], parent, Visit(cands[0], parent, h))
  }

  /** `added` is `origs` renamed with the numbers `next` upwards, the last first. */
  ghost predicate NumberedFrom(added: seq<HtmlLink>, origs: seq<HtmlLink>, next: nat)
  {
    && |added| == |origs|
    && forall i :: 0 <= i < |added| ==>
         added[i] == origs[i].(title := NumberedTitle(origs[i].title, next + |added| - 1 - i))
  }

  ghost predicate AllAccepted(origs: seq<HtmlLink>, parent: WebAddress)
  {
    forall i :: 0 <= i < |origs| ==> CheckLink(origs[i], parent) == Accepted
  }

  /** A link numbered `next` goes behind links numbered from `next + 1`. */
  lemma NumberedCons(rest: seq<HtmlLink>, restOrigs: seq<HtmlLink>, link: HtmlLink, next: nat)
    requires NumberedFrom(rest, restOrigs, next + 1)
    ensures NumberedFrom(rest + [link.(title := NumberedTitle(link.title, next))], restOrigs + [link], next)
  {
    var added, origs := rest + [link.(title := NumberedTitle(link.title, next))], restOrigs + [link];
    forall i | 0 <= i < |added|
      ensures added[i] == origs[i].(title := NumberedTitle(origs[i].title, next + |added| - 1 - i))
    {
      if i < |rest| {
        NumberedKeep(rest, restOrigs, link, next, i);
      } else {
        NumberedLast(rest, restOrigs, link, next);
      }
    }
  }

  /** An earlier link keeps its number when one more is numbered after it. */
  lemma NumberedKeep(rest: seq<HtmlLink>, restOrigs: seq<HtmlLink>, link: HtmlLink, next: nat, i: nat)
    requires NumberedFrom(rest, restOrigs, next + 1) && i < |rest|
    ensures var added, origs := rest + [link.(title := NumberedTitle(link.title, next))], restOrigs + [link];
            added[i] == origs[i].(title := NumberedTitle(origs[i].title, next + |added| - 1 - i))
  {
    var added, origs := rest + [link.(title := NumberedTitle(link.title, next))], restOrigs + [link];
    assert added[i] == rest[i] && origs[i] == restOrigs[i];
    assert next + |added| - 1 - i == next + 1 + |rest| - 1 - i;
  }

  /** The link numbered last gets `next`. */
  lemma NumberedLast(rest: seq<HtmlLink>, restOrigs: seq<HtmlLink>, link: HtmlLink, next: nat)
    requires |rest| == |restOrigs|
    ensures var added, origs := rest + [link.(title := NumberedTitle(link.title, next))], restOrigs + [link];
            added[|rest|] == origs[|rest|].(title := NumberedTitle(origs[|rest|].title, next + |added| - 1 - |rest|))
  {
    var added, origs := rest + [link.(title := NumberedTitle(link.title, next))], restOrigs + [link];
    assert added[|rest|] == link.(title := NumberedTitle(link.title, next)) && origs[|rest|] == link;
    assert next + |added| - 1 - |rest| == next;
  }

  lemma AcceptedCons(restOrigs: seq<HtmlLink>, link: HtmlLink, parent: WebAddress)
    requires AllAccepted(restOrigs, parent) && CheckLink(link, parent) == Accepted
    ensures AllAccepted(restOrigs + [link], parent)
  {
    var origs := restOrigs + [link];
    forall i | 0 <= i < |origs|
      ensures CheckLink(origs[i], parent) == Accepted
    {
      if i < |restOrigs| {
        assert origs[i] == restOrigs[i];
      }
    }
  }

  /** The list grows only at the head; the links added are candidates that passed
      `check_html_link`, renamed with the numbers `h.next` upwards in document order, so the
      list holds them last first. The numbers have no gaps. */
  lemma {:induction false} HarvestShape(cands: seq<HtmlLink>, parent: WebAddress, h: Harvest)
    returns (added: seq<HtmlLink>, origs: seq<HtmlLink>)
    ensures HarvestAll(cands, parent, h).links == added + h.links
    ensures HarvestAll(cands, parent, h).next == h.next + |added|
    ensures |origs| == |added| <= |cands|
    ensures AllAccepted(origs, parent) && NumberedFrom(added, origs, h.next)
  {
    if cands == [] {
      added, origs := [], [];
    } else {
      var link := cands[0];
      var h' := Visit(link, parent, h);
      var rest, restOrigs := HarvestShape(cands[1..], parent, h');
      if CheckLink(link, parent) == Accepted {
        var numbered := link.(title := NumberedTitle(link.title, h.next));
        assert h'.links == [numbered] + h.links && h'.next == h.next + 1;
        added := rest + [numbered];
        origs := restOrigs + [link];
        assert added + h.links == rest + h'.links;
        NumberedCons(rest, restOrigs, link, h.next);
        AcceptedCons(restOrigs, link, parent);
      } else {
        added, origs := rest, restOrigs;
      }
    }
  }

  /** The log only grows: what it held before stays at its front. */
  lemma {:induction false} HarvestLogGrows(cands: seq<HtmlLink>, parent: WebAddress, h: Harvest)
    ensures |HarvestAll(cands, parent, h).log| >= |h.log|
    ensures HarvestAll(cands, parent, h).log[..|h.log|] == h.log
  {
    if cands != [] {
      var h' := Visit(cands[0], parent, h);
      HarvestLogGrows(cands[1..], parent, h');
      var r := HarvestAll(cands[1..], parent, h');
      assert r.log[..|h'.log|][..|h.log|] == h'.log[..|h.log|];
    }
  }

  /** Every candidate that passes the check is added, and only those: the number of links
      added is the number of accepted candidates. */
  lemma {:induction false} HarvestCount(cands: seq<HtmlLink>, parent: WebAddress, h: Harvest)
    ensures HarvestAll(cands, parent, h).next == h.next + |AcceptedOf(cands, parent)|
    ensures |HarvestAll(cands, parent, h).links| == |h.links| + |AcceptedOf(cands, parent)|
  {
    if cands != [] {
      HarvestCount(cands[1..], parent, Visit(cands[0], parent, h));
    }
  }

  /** The candidates `check_html_link` accepts, in document order. */
  function AcceptedOf(cands: seq<HtmlLink>, parent: WebAddress): seq<HtmlLink>
  {
    if cands == [] then []
    else if CheckLink(cands[0], parent) == Accepted then [cands[0]] + AcceptedOf(cands[1..], parent)
    else AcceptedOf(cands[1..], parent)
  }

  /** Two links numbered one after the other have different titles. */
  lemma NumberedPairDistinct(added: seq<HtmlLink>, origs: seq<HtmlLink>, next: nat, i: nat, j: nat)
    requires NumberedFrom(added, origs, next) && i < j < |added|
    ensures added[i].title != added[j].title
  {
    var n1, n2 := next + |added| - 1 - i, next + |added| - 1 - j;
    NumberedTitlesDistinct(origs[i].title, n1, origs[j].title, n2);
    assert added[i].title == NumberedTitle(origs[i].title, n1);
    assert added[j].title == NumberedTitle(origs[j].title, n2);
  }

  /** Links numbered one after the other have pairwise different titles. */
  lemma NumberedDistinct(added: seq<HtmlLink>, origs: seq<HtmlLink>, next: nat)
    requires NumberedFrom(added, origs, next)
    ensures forall i, j :: 0 <= i < j < |added| ==> added[i].title != added[j].title
  {
    forall i, j | 0 <= i < j < |added|
      ensures added[i].title != added[j].title
    {
      NumberedPairDistinct(added, origs, next, i, j);
    }
  }

  /** The links `make_html_links` adds get pairwise different titles. */
  lemma HarvestTitlesDistinct(cands: seq<HtmlLink>, parent: WebAddress, h: Harvest, n: nat)
    requires n == |HarvestAll(cands, parent, h).links| - |h.links|
    ensures forall i, j :: 0 <= i < j < n ==>
              HarvestAll(cands, parent, h).links[i].title != HarvestAll(cands, parent, h).links[j].title
  {
    var added, origs := HarvestShape(cands, parent, h);
    NumberedDistinct(added, origs, h.next);
    var links := HarvestAll(cands, parent, h).links;
    assert links == added + h.links;
    assert n == |added|;
    forall i | 0 <= i < n
      ensures links[i] == added[i]
    {
    }
  }

  /** The list and the numbering do not depend on what the log held before. */
  lemma {:induction false} HarvestIgnoresLog(cands: seq<HtmlLink>, parent: WebAddress,
                                             links: seq<HtmlLink>, log1: String, log2: String, next: nat)
    ensures HarvestAll(cands, parent, Harvest(links, log1, next)).links
         == HarvestAll(cands, parent, Harvest(links, log2, next)).links
  {
    if cands != [] {
      var h1 := Visit(cands[0], parent, Harvest(links, log1, next));
      var h2 := Visit(cands[0], parent, Harvest(links, log2, next));
      HarvestIgnoresLog(cands[1..], parent, h1.links, h1.log, h2.log, h1.next);
    }
  }

  /** One round of the loop of `make_html_links` on the block found at `textpos`. */
  method VisitBlock(block: String, parent: WebAddress, h: Harvest) returns (r: Harvest)
    ensures r == Visit(LinkParams(block), parent, h)
  {
    var _, link := ExtractHtmlLinkParams(block);
    var log := h.log + CheckLog(link, parent);
    if CheckLink(link, parent) == Accepted {
      link := link.(title := NumberedTitle(link.title, h.next));
      return Harvest([link] + h.links, h.log + AddedLog(link), h.next + 1);
    }
    r := Harvest(h.links, log, h.next);
  }

  /** The loop body of `make_html_links`: the next block from `textpos` into `block`, and
      the round on its link; `done` when no block is left. */
  method HarvestStep(html: String, textpos: nat, parent: WebAddress, block: SfsString, h: Harvest)
    returns (done: bool, next: nat, h': Harvest)
    requires textpos <= |html| && block.Valid() && block.memlen > 0
    modifies block, block.data
    ensures block.Valid() && block.memlen > 0
    ensures block.data == old(block.data) || fresh(block.data)
    ensures done ==> LinksOf(html, textpos) == [] && h' == h
    ensures !done ==> textpos < next <= |html|
    ensures !done ==> HarvestAll(LinksOf(html, textpos), parent, h) == HarvestAll(LinksOf(html, next), parent, h')
  {
    var r;
    r, next := ExtractHtmlBlock(html, textpos, "a", block);
    h' := h;
    done := block.textlen == 0;
    if done {
      return;
    }
    var m := HtmlBlock(html, textpos, "a");
    assert LinksOf(html, textpos) == [LinkParams(block.Text())] + LinksOf(html, next);
    h' := VisitBlock(block.Text(), parent, h);
  }

  /** `make_html_links`: every `<a>` block of `html` in turn, through a 256-byte block
      string, with numbers from 1. */
  method MakeHtmlLinks(html: String, parent: WebAddress, links: seq<HtmlLink>, log: String)
    returns (ret: int, newLinks: seq<HtmlLink>, newLog: String)
    ensures ret == 0
    ensures newLinks == HarvestAll(LinksOf(html, 0), parent, Harvest(links, log, 1)).links
    ensures newLog == HarvestAll(LinksOf(html, 0), parent, Harvest(links, log, 1)).log
  {
    var block := new SfsString.Createz(256);
    var textpos: nat := 0;
    var h := Harvest(links, log, 1);
    ghost var goal := HarvestAll(LinksOf(html, 0), parent, h);
    var done := false;
    while !done
      invariant textpos <= |html| && block.Valid() && block.memlen > 0 && fresh(block.data)
      invariant !done ==> HarvestAll(LinksOf(html, textpos), parent, h) == goal
      invariant done ==> h == goal
      decreases |html| - textpos, !done
    {
      var next, h';
      done, next, h' := HarvestStep(html, textpos, parent, block, h);
      if !done {
        textpos, h := next, h';
      }
    }
    ret, newLinks, newLog := 0, h.links, h.log;
  }

  // ---------------------------------------------------------------------------------
  // obtain_webpage

  /** `obtain_webpage` on a page still to be fetched, with `net` standing for what the
      network does during `surffs_get_http`. A page in any other state is refused. */
  method ObtainWebpage(address: WebAddress, page: WebPage, net: NetOutcome) returns (ret: int)
    requires page.Valid()
    modifies page
    ensures page.Valid()
    ensures old(page.status) != StatusNeedGet ==> ret == EINVAL && unchanged(page)
    ensures old(page.status) == StatusNeedGet ==>
              && page.address == address && page.fullUrl == address.host + address.path
              && (ret != 0 ==> page.status == StatusNeedGet && page.links == old(page.links))
              && (page.payload.Some? <==>
                    (net.Connected? && net.sent == |RequestText(address.path, address.host)|
                     && net.reply.Received? && PayloadStart(net.reply.response).Some?))
              && (page.payload.None? ==> page.links == old(page.links))
              && (ret == 0 && page.payload.None? ==> page.status == StatusHttpError && page.statusStr == STATUS_HTTP_ERROR_STR)
              && (page.payload.Some? ==>
                    && ret == 0 && page.status == StatusOk && page.statusStr == STATUS_OK_STR
                    && page.httpResp == net.reply.response
                    && page.links == HarvestAll(LinksOf(page.Body(), 0), address, Harvest(old(page.links), [], 1)).links)
              && (page.payload.None? ==> page.log == old(page.log) + HttpLog(address.ip, address.host, address.path, net))
              && (page.payload.Some? ==>
                    page.log == HarvestAll(LinksOf(page.Body(), 0), address,
                                           Harvest(old(page.links), old(page.log) + HttpLog(address.ip, address.host, address.path, net), 1)).log)
  {
    if page.status != StatusNeedGet {
      return EINVAL;
    }
    page.address := address;
    page.fullUrl := address.host + address.path;
    ret := FetchInto(address, page, net);
    if ret != 0 {
      return ret;
    }
    if page.payload.None? {
      page.status, page.statusStr := StatusHttpError, STATUS_HTTP_ERROR_STR;
      return 0;
    }
    ret := HarvestPage(address, page);
    HarvestIgnoresLog(LinksOf(page.Body(), 0), address, old(page.links), old(page.log) + HttpLog(address.ip, address.host, address.path, net), [], 1);
  }

  /** The `surffs_get_http` call of `obtain_webpage`: the response, the payload offset and
      the log go into the page; nothing else of it changes. */
  method FetchInto(address: WebAddress, page: WebPage, net: NetOutcome) returns (ret: int)
    modifies page
    ensures page.address == old(page.address) && page.fullUrl == old(page.fullUrl)
    ensures page.status == old(page.status) && page.statusStr == old(page.statusStr)
    ensures page.links == old(page.links)
    ensures page.log == old(page.log) + HttpLog(address.ip, address.host, address.path, net)
    ensures page.payload.Some? <==>
              (net.Connected? && net.sent == |RequestText(address.path, address.host)|
               && net.reply.Received? && PayloadStart(net.reply.response).Some?)
    ensures page.payload.Some? ==> ret == 0 && page.httpResp == net.reply.response
                                   && page.payload.value <= |page.httpResp|
  {
    var r, log := GetHttp(address.ip, address.host, address.path, net, page.log);
    page.httpResp, page.payload, page.log := r.response, r.payload, log;
    ret := r.ret;
  }

  /** The end of `obtain_webpage` once a payload is found: the links of the body are
      harvested and the page is marked OK. */
  method HarvestPage(address: WebAddress, page: WebPage) returns (ret: int)
    requires page.payload.Some? && page.payload.value <= |page.httpResp|
    modifies page
    ensures ret == 0 && page.Valid()
    ensures page.address == old(page.address) && page.fullUrl == old(page.fullUrl)
    ensures page.httpResp == old(page.httpResp) && page.payload == old(page.payload)
    ensures page.status == StatusOk && page.statusStr == STATUS_OK_STR
    ensures var h := HarvestAll(LinksOf(page.Body(), 0), address, Harvest(old(page.links), old(page.log), 1));
            page.links == h.links && page.log == h.log
  {
    var body := page.httpResp[page.payload.value..];
    var links, log;
    ret, links, log := MakeHtmlLinks(body, address, page.links, page.log);
    page.links, page.log := links, log;
    page.status, page.statusStr := StatusOk, STATUS_OK_STR;
  }
}
