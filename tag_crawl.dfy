/**
 * The walk over the paginated tag listing: open the site, open the first
 * listing page, read the number of pages, then click the pager's last link
 * again and again, appending each page's tags to a tags file, until a page
 * answers with a status other than 200.
 *
 * The headless browser is replaced by its answers: a status for each visit
 * and, for each click, a PageResponse with the status and the tag names
 * the page lists. The tags file is a field holding its content (None while
 * the file does not exist).
 */
module TagCrawl {
  import opened Wrappers
  import opened JsStrings

  const SiteUrl: string := "stackoverflow.com"
  const TagsPath: string := "tags?page={{page}}&tab=popular"

  // ---------------------------------------------------------------------
  // Helpers
  // ---------------------------------------------------------------------

  /** `replaceHandle(s, {name, value})`: the first `{{name}}` in `s` becomes `value`. */
  function ReplaceHandle(s: string, name: string, value: string): string {
    ReplaceFirst(s, "{{" + name + "}}", value)
  }

  /** A string without the placeholder comes back unchanged. */
  lemma ReplaceHandleWithoutPlaceholder(s: string, name: string, value: string)
    requires !Contains(s, "{{" + name + "}}")
    ensures ReplaceHandle(s, name, value) == s
  {
  }

  /** Only the first placeholder is substituted, and a value without `$` is inserted as it is. */
  lemma ReplaceHandleFirst(before: string, name: string, after: string, value: string)
    requires forall k :: 0 <= k < |before| ==> !OccursAt(before + ("{{" + name + "}}") + after, "{{" + name + "}}", k)
    requires '$' !in value
    ensures ReplaceHandle(before + ("{{" + name + "}}") + after, name, value) == before + value + after
  {
    ReplaceFirstLiteral(before, "{{" + name + "}}", after, value);
  }

  /** The path of the first listing page. */
  lemma FirstListingPath()
    ensures ReplaceHandle(TagsPath, "page", "1") == "tags?page=1&tab=popular"
  {
    var before, after := "tags?page=", "&tab=popular";
    assert "{{" + "page" + "}}" == "{{page}}";
    assert before + "{{page}}" + after == TagsPath;
    assert before + "1" + after == "tags?page=1&tab=popular";
    NoOccurrenceBefore(before, "{{page}}", after);
    ReplaceFirstLiteral(before, "{{page}}", after, "1");
  }

  /** `path || ''`: an absent or empty path is the empty path. */
  function PathOrEmpty(path: Option<string>): string {
    match path
    case None => ""
    case Some(p) => p
  }

  /** `makeCompleteUrl(url, path)`. */
  function MakeCompleteUrl(url: string, path: Option<string>): string {
    "http://" + url + "/" + PathOrEmpty(path)
  }

  /** The host and the path of an `http://host/path` URL: the host ends at the first `/`. */
  function SplitCompleteUrl(s: string): Option<(string, string)> {
    if |s| >= 7 && s[..7] == "http://" then
      var rest := s[7..];
      match IndexOf(rest, "/")
      case None => None
      case Some(j) => Some((rest[..j], rest[j + 1..]))
    else None
  }

  /** For a host without `/`, the URL made from host and path splits back into them. */
  lemma CompleteUrlRoundTrip(url: string, path: Option<string>)
    requires '/' !in url
    ensures SplitCompleteUrl(MakeCompleteUrl(url, path)) == Some((url, PathOrEmpty(path)))
  {
    var s := MakeCompleteUrl(url, path);
    var rest := url + "/" + PathOrEmpty(path);
    assert s[..7] == "http://" && s[7..] == rest;
    NoOccurrenceBefore(url, "/", PathOrEmpty(path));
    assert OccursAt(rest, "/", |url|) by {
      assert rest[|url|..|url| + 1] == "/";
    }
    assert IndexOf(rest, "/") == Some(|url|);
    assert rest[..|url|] == url && rest[|url| + 1..] == PathOrEmpty(path);
  }

  /**
   * `Math.round(currentPage / lastPage * 100)`, the integer t with
   * t <= 100 * currentPage / lastPage + 1/2 < t + 1; None when lastPage is
   * 0 and the quotient is not a finite number.
   */
  function Percentage(currentPage: int, lastPage: int): (r: Option<int>)
    ensures r.None? <==> lastPage == 0
    ensures lastPage > 0 ==>
      2 * lastPage * r.value <= 200 * currentPage + lastPage < 2 * lastPage * r.value + 2 * lastPage
    ensures lastPage < 0 ==>
      2 * lastPage * r.value + 2 * lastPage < 200 * currentPage + lastPage <= 2 * lastPage * r.value
  {
    if lastPage == 0 then None
    else if lastPage > 0 then Some((200 * currentPage + lastPage) / (2 * lastPage))
    else Some((-(200 * currentPage + lastPage)) / (-(2 * lastPage)))
  }

  lemma MulMonotone(b: int, x: int, y: int)
    requires b > 0 && x <= y
    ensures b * x <= b * y
  {
    assert b * y - b * x == b * (y - x);
  }

  /** Division by a positive number is determined by quotient and remainder. */
  lemma DivUnique(a: int, b: int, q: int, r: int)
    requires b > 0 && 0 <= r < b && a == b * q + r
    ensures a / b == q
  {
    var q', r' := a / b, a % b;
    assert a == b * q' + r';
    if q' < q {
      MulMonotone(b, q' + 1, q);
    } else if q' > q {
      MulMonotone(b, q + 1, q');
    }
  }

  /** The reported percentage lies in [0, 100] during the walk and is 100 at the last page. */
  lemma PercentageBounds(currentPage: int, lastPage: int)
    requires 1 <= currentPage <= lastPage
    ensures Percentage(currentPage, lastPage).Some?
    ensures 0 <= Percentage(currentPage, lastPage).value <= 100
    ensures Percentage(lastPage, lastPage) == Some(100)
  {
    var l := lastPage;
    var a, b := 200 * currentPage + l, 2 * l;
    var t := a / b;
    assert Percentage(currentPage, l) == Some(t);
    assert b * t <= a by {
      assert a == b * t + a % b;
    }
    if t > 100 {
      MulMonotone(b, 101, t);
      assert false;
    }
    DivUnique(200 * l + l, b, 100, l);
  }

  // ---------------------------------------------------------------------
  // The walk, on values
  // ---------------------------------------------------------------------

  /** What the browser shows after one click: its status and the tag names on the page. */
  datatype PageResponse = PageResponse(status: int, tags: seq<string>)

  /** The state of the promise that `extractTags` returns; only its first settlement counts. */
  datatype Settlement = Pending | Resolved | Rejected(code: int)

  /** The number of leading pages that answer 200: the walk processes exactly these. */
  function OkPrefix(responses: seq<PageResponse>): (k: nat)
    ensures k <= |responses|
    ensures forall i :: 0 <= i < k ==> responses[i].status == 200
    ensures k < |responses| ==> responses[k].status != 200
    decreases |responses|
  {
    if responses == [] || responses[0].status != 200 then 0
    else 1 + OkPrefix(responses[1..])
  }

  /** What the pages append to the tags file: each page's tags joined by newlines, nothing between pages. */
  function TagBlocks(responses: seq<PageResponse>): string
    decreases |responses|
  {
    if responses == [] then ""
    else TagBlocks(responses[..|responses| - 1]) + Join("\n", responses[|responses| - 1].tags)
  }

  lemma {:induction false} TagBlocksAppend(a: seq<PageResponse>, b: seq<PageResponse>)
    ensures TagBlocks(a + b) == TagBlocks(a) + TagBlocks(b)
    decreases |b|
  {
    if |b| == 0 {
      assert a + b == a;
    } else {
      var b' := b[..|b| - 1];
      assert (a + b)[..|a + b| - 1] == a + b';
      assert (a + b)[|a + b| - 1] == b[|b| - 1];
      TagBlocksAppend(a, b');
    }
  }

  /** No separator goes between pages: the last tag of a page runs into the first tag of the next. */
  lemma NoSeparatorBetweenPages()
    ensures TagBlocks([PageResponse(200, ["java", "c"]), PageResponse(200, ["go"])]) == "java\ncgo"
  {
    var rs := [PageResponse(200, ["java", "c"]), PageResponse(200, ["go"])];
    assert rs[..1] == [PageResponse(200, ["java", "c"])];
    assert rs[..1][..0] == [];
  }

  /** The tags file after processing the first `k` pages of `responses`. */
  function FileAfter(before: Option<string>, responses: seq<PageResponse>, k: nat): Option<string>
    requires k <= |responses|
  {
    if k == 0 then before else Some(before.GetOr("") + TagBlocks(responses[..k]))
  }

  /** The promise after processing `k` pages from `start`: it resolves once the page equal to `lastPage` is processed. */
  function PromiseAfter(before: Settlement, start: int, lastPage: int, k: nat): Settlement {
    if before == Pending && start <= lastPage < start + k then Resolved else before
  }

  /** A walk that has not reached its last listed page leaves the promise pending; reaching it resolves it. */
  lemma PromiseResolvesAtLastPage(start: int, lastPage: int, k: nat)
    ensures PromiseAfter(Pending, start, lastPage, k) == Resolved <==> start <= lastPage < start + k
    ensures PromiseAfter(Resolved, start, lastPage, k) == Resolved
  {
  }

  // ---------------------------------------------------------------------
  // The walk, on state
  // ---------------------------------------------------------------------

  class TagCrawl {
    /** Content of `outputs/tags.txt`; None while the file does not exist. */
    var tagsFile: Option<string>
    /** URLs passed to `browser.visit`, in order. */
    var visits: seq<string>
    /** Clicks on the pager link. */
    var clicks: nat
    var currentPage: int
    var lastPage: int
    var promise: Settlement
    /** The status of the page that ended the walk, once one did. */
    var halted: Option<int>

    constructor (existingTagsFile: Option<string>)
      ensures tagsFile == existingTagsFile && visits == [] && clicks == 0
      ensures currentPage == 0 && lastPage == 0 && promise == Pending && halted == None
    {
      tagsFile := existingTagsFile;
      visits := [];
      clicks := 0;
      currentPage := 0;
      lastPage := 0;
      promise := Pending;
      halted := None;
    }

    /** `saveExtractedTags`: create the file empty if absent, then append the tags joined by newlines. */
    method SaveExtractedTags(tags: seq<string>)
      modifies this`tagsFile
      ensures tagsFile == Some(old(tagsFile).GetOr("") + Join("\n", tags))
    {
      if tagsFile.None? {
        tagsFile := Some("");
      }
      tagsFile := Some(tagsFile.value + Join("\n", tags));
    }

    method Resolve()
      modifies this`promise
      ensures promise == if old(promise) == Pending then Resolved else old(promise)
    {
      if promise == Pending {
        promise := Resolved;
      }
    }

    method Reject(code: int)
      modifies this`promise
      ensures promise == if old(promise) == Pending then Rejected(code) else old(promise)
    {
      if promise == Pending {
        promise := Rejected(code);
      }
    }

    /**
     * One call of `extractTagsRecursively`: click the pager link; on 200
     * save the page's tags, resolve when this is the last page, and go on
     * with the next page whether or not it was. On any other status the
     * walk ends and nothing is saved. The log line of that branch calls
     * `chalk.orange`, which chalk does not have, so the call throws before
     * it reaches `reject`: the promise is left as it was.
     */
    method Step(response: PageResponse)
      requires halted == None
      modifies this`tagsFile, this`clicks, this`currentPage, this`promise, this`halted
      ensures clicks == old(clicks) + 1
      ensures response.status == 200 ==>
        tagsFile == Some(old(tagsFile).GetOr("") + Join("\n", response.tags)) &&
        currentPage == old(currentPage) + 1 && halted == None &&
        promise == PromiseAfter(old(promise), old(currentPage), lastPage, 1)
      ensures response.status != 200 ==>
        tagsFile == old(tagsFile) && currentPage == old(currentPage) &&
        halted == Some(response.status) && promise == old(promise)
    {
      clicks := clicks + 1;
      if response.status == 200 {
        SaveExtractedTags(response.tags);
        if currentPage == lastPage {
          Resolve();
        }
        currentPage := currentPage + 1;
      } else {
        halted := Some(response.status);
      }
    }

    /**
     * The state after walking over `responses` from the given tags file,
     * click count, page and promise: the OkPrefix(responses) leading 200
     * pages are saved and counted, one more click when a page ended the walk.
     */
    ghost predicate Walked(file0: Option<string>, clicks0: nat, page0: int, promise0: Settlement, responses: seq<PageResponse>)
      reads this
    {
      var k := OkPrefix(responses);
      && tagsFile == FileAfter(file0, responses, k)
      && currentPage == page0 + k
      && clicks == clicks0 + (if k < |responses| then k + 1 else k)
      && halted == (if k < |responses| then Some(responses[k].status) else None)
      && promise == PromiseAfter(promise0, page0, lastPage, k)
    }

    /**
     * The recursion of `extractTagsRecursively` as a loop over the answers
     * to successive clicks. Every leading 200 page is saved, in order,
     * including pages past `lastPage`; the first other status ends the
     * walk after its click, and later answers are never asked for.
     */
    method Walk(responses: seq<PageResponse>)
      requires halted == None
      modifies this`tagsFile, this`clicks, this`currentPage, this`promise, this`halted
      ensures Walked(old(tagsFile), old(clicks), old(currentPage), old(promise), responses)
    {
      ghost var k := OkPrefix(responses);
      var i := 0;
      while i < |responses| && halted == None
        invariant 0 <= i <= |responses|
        invariant halted == None ==>
          && i <= k
          && tagsFile == FileAfter(old(tagsFile), responses, i)
          && clicks == old(clicks) + i
          && currentPage == old(currentPage) + i
          && promise == PromiseAfter(old(promise), old(currentPage), lastPage, i)
        invariant halted != None ==>
          && i == k + 1
          && halted == Some(responses[k].status)
          && tagsFile == FileAfter(old(tagsFile), responses, k)
          && clicks == old(clicks) + k + 1
          && currentPage == old(currentPage) + k
          && promise == PromiseAfter(old(promise), old(currentPage), lastPage, k)
        decreases |responses| - i
      {
        assert responses[..i + 1][..i] == responses[..i];
        assert TagBlocks(responses[..i + 1]) == TagBlocks(responses[..i]) + Join("\n", responses[i].tags);
        ghost var before := tagsFile;
        Step(responses[i]);
        if i < k {
          assert responses[i].status == 200;
          assert tagsFile == Some(before.GetOr("") + Join("\n", responses[i].tags));
          assert responses[..0] == [];
          assert before.GetOr("") == old(tagsFile).GetOr("") + TagBlocks(responses[..i]);
          assert FileAfter(old(tagsFile), responses, i + 1) == Some(old(tagsFile).GetOr("") + TagBlocks(responses[..i + 1]));
          assert old(tagsFile).GetOr("") + TagBlocks(responses[..i]) + Join("\n", responses[i].tags) ==
            old(tagsFile).GetOr("") + (TagBlocks(responses[..i]) + Join("\n", responses[i].tags));
        }
        i := i + 1;
      }
    }

    /** `openWebsite`: visit the site's root; true when it answers 200. */
    method OpenWebsite(status: int) returns (ok: bool)
      modifies this`visits
      ensures visits == old(visits) + [MakeCompleteUrl(SiteUrl, None)]
      ensures ok <==> status == 200
    {
      visits := visits + [MakeCompleteUrl(SiteUrl, None)];
      ok := status == 200;
    }

    /**
     * `extractTags`: visit the first listing page; on 200 take the page
     * count it shows and walk from page 1, so the page counted as page 1
     * is the one reached by the first click away from the listing's first
     * page. On any other status the promise is rejected with it.
     */
    method ExtractTags(listingStatus: int, pagesShown: int, responses: seq<PageResponse>)
      requires promise == Pending && halted == None
      modifies this
      ensures visits == old(visits) + [MakeCompleteUrl(SiteUrl, Some(ReplaceHandle(TagsPath, "page", "1")))]
      ensures listingStatus != 200 ==>
        && promise == Rejected(listingStatus)
        && tagsFile == old(tagsFile) && clicks == old(clicks) && halted == None
        && currentPage == old(currentPage) && lastPage == old(lastPage)
      ensures listingStatus == 200 ==>
        lastPage == pagesShown && Walked(old(tagsFile), old(clicks), 1, Pending, responses)
    {
      visits := visits + [MakeCompleteUrl(SiteUrl, Some(ReplaceHandle(TagsPath, "page", "1")))];
      if listingStatus == 200 {
        lastPage := pagesShown;
        currentPage := 1;
        Walk(responses);
      } else {
        Reject(listingStatus);
      }
    }

    /** The script: open the site and, once it answers 200, extract the tags. */
    method Run(rootStatus: int, listingStatus: int, pagesShown: int, responses: seq<PageResponse>)
      requires promise == Pending && halted == None
      modifies this
      ensures rootStatus != 200 ==>
        && visits == old(visits) + [MakeCompleteUrl(SiteUrl, None)]
        && tagsFile == old(tagsFile) && clicks == old(clicks) && promise == old(promise) && halted == old(halted)
        && currentPage == old(currentPage) && lastPage == old(lastPage)
      ensures rootStatus == 200 ==>
        visits == old(visits) + [MakeCompleteUrl(SiteUrl, None), MakeCompleteUrl(SiteUrl, Some(ReplaceHandle(TagsPath, "page", "1")))]
      ensures rootStatus == 200 && listingStatus != 200 ==>
        && promise == Rejected(listingStatus)
        && tagsFile == old(tagsFile) && clicks == old(clicks) && halted == None
        && currentPage == old(currentPage) && lastPage == old(lastPage)
      ensures rootStatus == 200 && listingStatus == 200 ==>
        lastPage == pagesShown && Walked(old(tagsFile), old(clicks), 1, Pending, responses)
    {
      var ok := OpenWebsite(rootStatus);
      if ok {
        ExtractTags(listingStatus, pagesShown, responses);
      }
    }
  }

  /** The URL of the site's root. */
  lemma RootUrl()
    ensures MakeCompleteUrl(SiteUrl, None) == "http://stackoverflow.com/"
  {
    assert "http://" + SiteUrl + "/" + "" == "http://stackoverflow.com/";
  }

  /** A URL with a path is the root URL followed by the path. */
  lemma UrlWithPath(url: string, path: string)
    ensures MakeCompleteUrl(url, Some(path)) == MakeCompleteUrl(url, None) + path
  {
  }

  /** The URL of the first listing page: the root URL followed by the first listing path. */
  lemma FirstListingUrl()
    ensures MakeCompleteUrl(SiteUrl, Some(ReplaceHandle(TagsPath, "page", "1"))) ==
      MakeCompleteUrl(SiteUrl, None) + "tags?page=1&tab=popular"
  {
    FirstListingPath();
    UrlWithPath(SiteUrl, ReplaceHandle(TagsPath, "page", "1"));
  }
}
