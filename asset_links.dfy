/** The substring filter that decides which anchors of a bounty page count as asset links. */
module AssetLinks {

  /** `sub` occurs in `str` starting at position `i`. */
  ghost predicate OccursAt(str: string, sub: string, i: int)
  {
    0 <= i && i + |sub| <= |str| && str[i..i + |sub|] == sub
  }

  /** contains: byte-wise substring search (the empty string occurs everywhere). */
  function Contains(str: string, substr: string): (found: bool)
    ensures found <==> exists i :: OccursAt(str, substr, i)
    decreases |str|
  {
    if |substr| > |str| then
      NotLonger(str, substr);
      false
    else if str[..|substr|] == substr then
      assert OccursAt(str, substr, 0);
      true
    else
      var rest := Contains(str[1..], substr);
      ShiftOccurrence(str, substr);
      rest
  }

  lemma NotLonger(str: string, substr: string)
    requires |substr| > |str|
    ensures forall i :: !OccursAt(str, substr, i)
  {
  }

  /** Occurrences in `str` other than at 0 are the occurrences in `str[1..]`, shifted by one. */
  lemma ShiftOccurrence(str: string, substr: string)
    requires |str| > 0 && (|substr| > |str| || str[..|substr|] != substr)
    ensures (exists i :: OccursAt(str, substr, i)) <==> (exists i :: OccursAt(str[1..], substr, i))
  {
    forall i | OccursAt(str, substr, i) ensures OccursAt(str[1..], substr, i - 1) {
      assert i != 0;
      assert str[1..][i - 1..i - 1 + |substr|] == str[i..i + |substr|];
    }
    forall i | OccursAt(str[1..], substr, i) ensures OccursAt(str, substr, i + 1) {
      assert str[1..][i..i + |substr|] == str[i + 1..i + 1 + |substr|];
    }
  }

  /** containsAny: true as soon as one of `substrs` occurs in `str`. */
  method ContainsAny(str: string, substrs: seq<string>) returns (found: bool)
    ensures found <==> exists k :: 0 <= k < |substrs| && Contains(str, substrs[k])
  {
    for k := 0 to |substrs|
      invariant forall j :: 0 <= j < k ==> !Contains(str, substrs[j])
    {
      if Contains(str, substrs[k]) {
        return true;
      }
    }
    return false;
  }

  /** The allow-list of asset domains used when scraping a bounty page. */
  const AssetDomains: seq<string> := ["github.com", "etherscan.io", "testnet.bscscan.com"]

  ghost predicate IsAssetLink(href: string)
  {
    exists k :: 0 <= k < |AssetDomains| && Contains(href, AssetDomains[k])
  }

  /** The hrefs that name an asset domain, in document order. */
  ghost function AssetLinksOf(hrefs: seq<string>): seq<string>
  {
    if |hrefs| == 0 then []
    else AssetLinksOf(hrefs[..|hrefs| - 1])
         + (if IsAssetLink(hrefs[|hrefs| - 1]) then [hrefs[|hrefs| - 1]] else [])
  }

  /** The anchor callback of fetchAssetLinksForBounty, run over the page's hrefs in order. */
  method SelectAssetLinks(hrefs: seq<string>) returns (assetLinks: seq<string>)
    ensures assetLinks == AssetLinksOf(hrefs)
  {
    assetLinks := [];
    for i := 0 to |hrefs|
      invariant assetLinks == AssetLinksOf(hrefs[..i])
    {
      assert hrefs[..i + 1][..i] == hrefs[..i];
      var keep := ContainsAny(hrefs[i], AssetDomains);
      if keep {
        assetLinks := assetLinks + [hrefs[i]];
      }
    }
    assert hrefs[..|hrefs|] == hrefs;
  }

  /** A link is kept exactly when it is one of the hrefs and names an asset domain. */
  lemma {:induction false} AssetLinksExactly(hrefs: seq<string>, x: string)
    ensures x in AssetLinksOf(hrefs) <==> x in hrefs && IsAssetLink(x)
  {
    if |hrefs| > 0 {
      var init := hrefs[..|hrefs| - 1];
      assert hrefs == init + [hrefs[|hrefs| - 1]];
      AssetLinksExactly(init, x);
    }
  }
}
