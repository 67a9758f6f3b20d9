/** The pure part of the work-item fetcher `getWorkitem`: the work-item id
    that `idMatcher` (`/_workitems\/edit\/(\d+)/`) finds in a shared link,
    and the tracker's REST request URL for that id. The GET request itself
    is not part of this model. */
module WorkItemFetcher {
  import opened Wrappers
  import opened Errors

  /** The literal part of `idMatcher`. */
  const EditPath: string := "_workitems/edit/"

  /** `\d`: an ASCII digit. */
  predicate IsDigit(c: char)
  {
    '0' <= c <= '9'
  }

  /** `idMatcher` matches at index `i`: the edit path, then at least one digit. */
  predicate IdAt(url: string, i: nat)
  {
    i + |EditPath| < |url| && url[i..i + |EditPath|] == EditPath && IsDigit(url[i + |EditPath|])
  }

  /** The end of the run of digits that starts at `p`: `\d+` is greedy. */
  function DigitsEnd(s: string, p: nat): (e: nat)
    requires p <= |s|
    ensures p <= e <= |s|
    ensures forall q :: p <= q < e ==> IsDigit(s[q])
    ensures e < |s| ==> !IsDigit(s[e])
    decreases |s| - p
  {
    if p < |s| && IsDigit(s[p]) then DigitsEnd(s, p + 1) else p
  }

  /** The leftmost index at or after `i` where `idMatcher` matches. */
  function FindId(url: string, i: nat): (r: Option<nat>)
    requires i <= |url|
    ensures r.Some? ==> i <= r.value && IdAt(url, r.value)
    ensures r.Some? ==> forall j :: i <= j < r.value ==> !IdAt(url, j)
    ensures r.None? ==> forall j :: i <= j ==> !IdAt(url, j)
    decreases |url| - i
  {
    if i == |url| then None
    else if IdAt(url, i) then Some(i)
    else FindId(url, i + 1)
  }

  /** `url.match(idMatcher)[1]`: the digits after the leftmost edit path
      that has a digit after it; a failure where the source indexes the
      `null` of a failed match. */
  function ExtractId(url: string): (r: Result<string, Error>)
    ensures r.Failure? <==> forall j :: 0 <= j ==> !IdAt(url, j)
    ensures r.Failure? ==> r.error == MissingWorkItemId
    ensures r.Success? ==> |r.value| > 0 && forall q :: 0 <= q < |r.value| ==> IsDigit(r.value[q])
  {
    match FindId(url, 0)
    case None => Failure(MissingWorkItemId)
    case Some(i) =>
      var p := i + |EditPath|;
      Success(url[p..DigitsEnd(url, p)])
  }

  /** The request `getWorkitem` sends to the tracker for a shared link. */
  function RequestUrl(server: string, link: string): (r: Result<string, Error>)
    ensures r.Failure? <==> ExtractId(link).Failure?
  {
    match ExtractId(link)
    case Failure(e) => Failure(e)
    case Success(id) => Success("https://" + server + "/DefaultCollection/_apis/wit/workitems/" + id + "?api-version=1.0")
  }

  /** The id is exactly the maximal run of digits after the leftmost edit
      path that is followed by a digit. */
  lemma ExtractIdIsLeftmostLongest(url: string, i: nat, e: nat)
    requires IdAt(url, i) && forall j :: 0 <= j < i ==> !IdAt(url, j)
    requires i + |EditPath| < e <= |url|
    requires forall q :: i + |EditPath| <= q < e ==> IsDigit(url[q])
    requires e == |url| || !IsDigit(url[e])
    ensures ExtractId(url) == Success(url[i + |EditPath|..e])
  {
    var r := FindId(url, 0);
    assert r == Some(i);
    var p := i + |EditPath|;
    var d := DigitsEnd(url, p);
    assert d == e;
  }

  /** The request names the id that `ExtractIdIsLeftmostLongest`
      describes, in the tracker's work-item API, version 1.0. */
  lemma RequestUrlOfId(server: string, url: string, i: nat, e: nat)
    requires IdAt(url, i) && forall j :: 0 <= j < i ==> !IdAt(url, j)
    requires i + |EditPath| < e <= |url|
    requires forall q :: i + |EditPath| <= q < e ==> IsDigit(url[q])
    requires e == |url| || !IsDigit(url[e])
    ensures RequestUrl(server, url)
         == Success("https://" + server + "/DefaultCollection/_apis/wit/workitems/" + url[i + |EditPath|..e] + "?api-version=1.0")
  {
    ExtractIdIsLeftmostLongest(url, i, e);
  }

  /** A work-item link whose part before the edit path holds no '_' yields
      the id written after the edit path. */
  lemma ExtractIdFromLink(base: string, id: string, rest: string)
    requires '_' !in base
    requires |id| > 0 && forall q :: 0 <= q < |id| ==> IsDigit(id[q])
    requires rest == "" || !IsDigit(rest[0])
    ensures ExtractId(base + EditPath + id + rest) == Success(id)
  {
    var url := base + EditPath + id + rest;
    var i := |base|;
    assert url[i..i + |EditPath|] == EditPath;
    assert url[i + |EditPath|] == id[0];
    forall j | 0 <= j < i
      ensures !IdAt(url, j)
    {
      assert url[j] == base[j] && base[j] in base;
      assert j + |EditPath| < |url| ==> url[j..j + |EditPath|][0] == url[j];
    }
    var e := i + |EditPath| + |id|;
    forall q | i + |EditPath| <= q < e
      ensures IsDigit(url[q])
    {
      assert url[q] == id[q - i - |EditPath|];
    }
    assert e < |url| ==> url[e] == rest[0];
    ExtractIdIsLeftmostLongest(url, i, e);
    assert url[i + |EditPath|..e] == id;
  }

  /** For such a link the request names the work item in the tracker's
      work-item API, version 1.0. */
  lemma RequestUrlForLink(server: string, base: string, id: string, rest: string)
    requires '_' !in base
    requires |id| > 0 && forall q :: 0 <= q < |id| ==> IsDigit(id[q])
    requires rest == "" || !IsDigit(rest[0])
    ensures RequestUrl(server, base + EditPath + id + rest)
         == Success("https://" + server + "/DefaultCollection/_apis/wit/workitems/" + id + "?api-version=1.0")
  {
    ExtractIdFromLink(base, id, rest);
  }
}
