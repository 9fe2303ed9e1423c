/** extractTokenFromSource: the build token of the explore page, the first `[^/]+` segment
    between "/_next/static/" and "/_buildManifest.js", or "" when the page has none.
    The regular expression has one fixed shape, so it is specified here directly. */
module BuildToken {
  import opened Options

  const Prefix: string := "/_next/static/"
  const Suffix: string := "/_buildManifest.js"

  ghost predicate StartsWith(s: string, t: string)
  {
    |t| <= |s| && s[..|t|] == t
  }

  /** The pattern matches at position `i` of `s`, capturing `token`. */
  ghost predicate MatchAt(s: string, i: int, token: string)
  {
    && 0 <= i <= |s|
    && |token| > 0
    && (forall c :: c in token ==> c != '/')
    && StartsWith(s[i..], Prefix + token + Suffix)
  }

  /** The first position at or after `j` that holds '/', or |s|. */
  function SegmentEnd(s: string, j: nat): (k: nat)
    requires j <= |s|
    ensures j <= k <= |s|
    ensures forall m :: j <= m < k ==> s[m] != '/'
    ensures k < |s| ==> s[k] == '/'
    decreases |s| - j
  {
    if j == |s| || s[j] == '/' then j else SegmentEnd(s, j + 1)
  }

  /** The token of a match starting at `i`, if the pattern matches there. */
  function TokenAt(s: string, i: nat): Option<string>
    requires i <= |s|
  {
    if |Prefix| <= |s| - i && s[i..i + |Prefix|] == Prefix then
      var k := SegmentEnd(s, i + |Prefix|);
      if k > i + |Prefix| && |Suffix| <= |s| - k && s[k..k + |Suffix|] == Suffix
      then Some(s[i + |Prefix|..k])
      else None
    else None
  }

  /** A match at `i` is found by TokenAt, and its token is the only one possible there. */
  lemma TokenAtExact(s: string, i: nat, token: string)
    requires i <= |s|
    ensures MatchAt(s, i, token) <==> TokenAt(s, i) == Some(token)
  {
    if MatchAt(s, i, token) {
      MatchFound(s, i, token);
    }
    if TokenAt(s, i) == Some(token) {
      FoundMatches(s, i, token);
    }
  }

  /** The three parts of a match, as slices of `s`. */
  lemma MatchParts(s: string, i: nat, token: string)
    requires i <= |s| && StartsWith(s[i..], Prefix + token + Suffix)
    ensures i + |Prefix| + |token| + |Suffix| <= |s|
    ensures s[i..i + |Prefix|] == Prefix
    ensures s[i + |Prefix|..i + |Prefix| + |token|] == token
    ensures s[i + |Prefix| + |token|..i + |Prefix| + |token| + |Suffix|] == Suffix
  {
    var whole := Prefix + token + Suffix;
    forall x | 0 <= x < |whole| ensures s[i + x] == whole[x] {
      assert s[i..][..|whole|][x] == s[i + x];
    }
    assert forall x :: 0 <= x < |Prefix| ==> whole[x] == Prefix[x];
    assert forall m :: 0 <= m < |token| ==> whole[|Prefix| + m] == token[m];
    assert forall x :: 0 <= x < |Suffix| ==> whole[|Prefix| + |token| + x] == Suffix[x];
  }

  lemma MatchFound(s: string, i: nat, token: string)
    requires i <= |s| && MatchAt(s, i, token)
    ensures TokenAt(s, i) == Some(token)
  {
    var p := i + |Prefix|;
    MatchParts(s, i, token);
    assert s[p + |token|] == Suffix[0] == '/';
    forall m | p <= m < p + |token| ensures s[m] != '/' {
      assert s[m] == s[p..p + |token|][m - p] == token[m - p];
      assert token[m - p] in token;
    }
    SegmentEndAt(s, p, p + |token|);
  }

  lemma FoundMatches(s: string, i: nat, token: string)
    requires i <= |s| && TokenAt(s, i) == Some(token)
    ensures MatchAt(s, i, token)
  {
    var p := i + |Prefix|;
    var k := SegmentEnd(s, p);
    var whole := Prefix + token + Suffix;
    assert token == s[p..k];
    assert s[i..][..|whole|] == s[i..k + |Suffix|];
    assert s[i..k + |Suffix|] == s[i..p] + s[p..k] + s[k..k + |Suffix|];
    forall c | c in token ensures c != '/' {
      var m :| 0 <= m < |token| && token[m] == c;
      assert token[m] == s[p + m];
    }
  }

  lemma {:induction false} SegmentEndAt(s: string, j: nat, k: nat)
    requires j <= k < |s| && s[k] == '/'
    requires forall m :: j <= m < k ==> s[m] != '/'
    ensures SegmentEnd(s, j) == k
    decreases k - j
  {
    if j < k {
      SegmentEndAt(s, j + 1, k);
    }
  }

  /** The leftmost match at or after position `i`. */
  function ScanFrom(s: string, i: nat): (token: string)
    requires i <= |s|
    ensures token == "" ==> forall j, t :: i <= j ==> !MatchAt(s, j, t)
    ensures token != "" ==>
      exists k :: i <= k && MatchAt(s, k, token) && forall j, t :: i <= j < k ==> !MatchAt(s, j, t)
    decreases |s| - i
  {
    NoMatchAt(s, i);
    match TokenAt(s, i)
    case Some(t) =>
      TokenAtExact(s, i, t);
      t
    case None =>
      if i == |s| then
        NoMatchBeyond(s);
        ""
      else
        ScanFrom(s, i + 1)
  }

  lemma NoMatchAt(s: string, i: nat)
    requires i <= |s|
    ensures TokenAt(s, i).None? ==> forall t :: !MatchAt(s, i, t)
  {
    forall t ensures TokenAt(s, i).None? ==> !MatchAt(s, i, t) {
      TokenAtExact(s, i, t);
    }
  }

  lemma NoMatchBeyond(s: string)
    ensures forall j, t :: |s| < j ==> !MatchAt(s, j, t)
  {
  }

  /** extractTokenFromSource: "" exactly when the page holds no match; otherwise the capture of
      the leftmost match, which is non-empty and contains no '/'. */
  function ExtractTokenFromSource(source: string): (token: string)
    ensures token == "" <==> forall j, t :: !MatchAt(source, j, t)
    ensures token != "" ==>
      exists k :: MatchAt(source, k, token) && forall j, t :: j < k ==> !MatchAt(source, j, t)
    ensures forall c :: c in token ==> c != '/'
  {
    var token := ScanFrom(source, 0);
    assert forall j, t :: j < 0 ==> !MatchAt(source, j, t);
    token
  }
}
