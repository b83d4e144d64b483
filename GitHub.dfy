/**
 * The pull-request URL pattern both scripts match with
 * `re.match(r"https://github\.com/([^/]+/[^/]+)/pull/(\d+)", arg)`.
 * `re.match` anchors only at the start, so anything may follow the digits.
 */
module GitHub {
  import opened Wrappers
  import opened Text

  const PrUrlPrefix: string := "https://github.com/"
  const PullInfix: string := "/pull/"

  /** End of the maximal run of characters other than '/' that starts at `i` (a greedy `[^/]*`). */
  function NonSlashRunEnd(s: string, i: nat): (j: nat)
    requires i <= |s|
    ensures i <= j <= |s|
    ensures forall k :: i <= k < j ==> s[k] != '/'
    ensures j < |s| ==> s[j] == '/'
    decreases |s| - i
  {
    if i == |s| || s[i] == '/' then i else NonSlashRunEnd(s, i + 1)
  }

  lemma NonSlashRunOf(s: string, i: nat, w: string)
    requires i + |w| <= |s| && s[i..i + |w|] == w && '/' !in w
    requires i + |w| == |s| || s[i + |w|] == '/'
    ensures NonSlashRunEnd(s, i) == i + |w|
  {
  }

  /** End of `[^/]+/[^/]+` matched from `a`, if the pattern matches there. */
  function OwnerRepoEnd(s: string, a: nat): Option<nat>
    requires a <= |s|
  {
    var b := NonSlashRunEnd(s, a);
    if b == a || b == |s| then None
    else
      var c := NonSlashRunEnd(s, b + 1);
      if c == b + 1 then None else Some(c)
  }

  /** The number of `/pull/(\d+)` matched from `c`, if the pattern matches there. */
  function PullNumber(s: string, c: nat): Option<nat>
    requires c <= |s|
  {
    if !StartsWith(s[c..], PullInfix) then None
    else
      var d := DigitRunEnd(s, c + |PullInfix|);
      if d == c + |PullInfix| then None else Some(DigitsValue(s[c + |PullInfix|..d]))
  }

  /**
   * The `owner/repo` group and the PR number of a pull-request URL, or `None`
   * when the pattern does not match at the start of `s`.
   */
  function MatchPrUrl(s: string): Option<(string, nat)> {
    if !StartsWith(s, PrUrlPrefix) then None
    else
      match OwnerRepoEnd(s, |PrUrlPrefix|)
      case None => None
      case Some(c) =>
        match PullNumber(s, c)
        case None => None
        case Some(n) => Some((s[|PrUrlPrefix|..c], n))
  }

  /** A match starts with the URL prefix, the `owner/repo` group and "/pull/"; the group has an inner '/'. */
  lemma MatchPrUrlShape(s: string)
    requires MatchPrUrl(s).Some?
    ensures StartsWith(s, PrUrlPrefix + MatchPrUrl(s).value.0 + PullInfix)
    ensures exists i :: 0 < i < |MatchPrUrl(s).value.0| - 1 && MatchPrUrl(s).value.0[i] == '/'
  {
    var a := |PrUrlPrefix|;
    var b := NonSlashRunEnd(s, a);
    var c := OwnerRepoEnd(s, a).value;
    assert s[..c + |PullInfix|] == PrUrlPrefix + s[a..c] + PullInfix;
    assert s[a..c][b - a] == '/';
  }

  lemma OwnerRepoEndOf(s: string, a: nat, owner: string, repo: string)
    requires owner != [] && repo != [] && '/' !in owner && '/' !in repo
    requires a + |owner| + 1 + |repo| <= |s|
    requires s[a..a + |owner|] == owner && s[a + |owner|] == '/'
    requires s[a + |owner| + 1..a + |owner| + 1 + |repo|] == repo
    requires a + |owner| + 1 + |repo| == |s| || s[a + |owner| + 1 + |repo|] == '/'
    ensures OwnerRepoEnd(s, a) == Some(a + |owner| + 1 + |repo|)
  {
    NonSlashRunOf(s, a, owner);
    NonSlashRunOf(s, a + |owner| + 1, repo);
  }

  lemma PullNumberOf(s: string, c: nat, digits: string)
    requires IsDigitString(digits) && c + |PullInfix| + |digits| <= |s|
    requires s[c..c + |PullInfix|] == PullInfix
    requires s[c + |PullInfix|..c + |PullInfix| + |digits|] == digits
    requires c + |PullInfix| + |digits| == |s| || !IsDigit(s[c + |PullInfix| + |digits|])
    ensures PullNumber(s, c) == Some(DigitsValue(digits))
  {
    var e := c + |PullInfix|;
    assert s[c..][..|PullInfix|] == PullInfix;
    DigitRunOf(s, e, digits);
  }

  /** Where the parts of a URL built from an owner, a repository and digits sit. */
  lemma PrUrlParts(owner: string, repo: string, digits: string, tail: string)
    ensures var s := PrUrlPrefix + owner + "/" + repo + PullInfix + digits + tail;
            var a := |PrUrlPrefix|;
            var b := a + |owner|;
            var c := b + 1 + |repo|;
            var e := c + |PullInfix|;
            && s[..a] == PrUrlPrefix && s[a..b] == owner && s[b] == '/'
            && s[b + 1..c] == repo && s[a..c] == owner + "/" + repo
            && s[c..e] == PullInfix && s[e..e + |digits|] == digits
            && s[e + |digits|..] == tail
  {
    var s := PrUrlPrefix + owner + "/" + repo + PullInfix + digits + tail;
    var a := |PrUrlPrefix|;
    var b := a + |owner|;
    var c := b + 1 + |repo|;
    var e := c + |PullInfix|;
    assert s == PrUrlPrefix + (owner + "/" + repo) + PullInfix + digits + tail;
    assert s[..a] == PrUrlPrefix;
    assert s[a..c] == owner + "/" + repo;
    assert s[a..b] == s[a..c][..|owner|];
    assert s[b + 1..c] == s[a..c][|owner| + 1..];
    assert s[c..e] == PullInfix;
    assert s[e..e + |digits|] == digits;
    assert s[e + |digits|..] == tail;
  }

  /** A string that passes the three steps of the pattern matches with that group and number. */
  lemma MatchPrUrlOf(s: string, c: nat, n: nat)
    requires StartsWith(s, PrUrlPrefix) && |PrUrlPrefix| <= c <= |s|
    requires OwnerRepoEnd(s, |PrUrlPrefix|) == Some(c) && PullNumber(s, c) == Some(n)
    ensures MatchPrUrl(s) == Some((s[|PrUrlPrefix|..c], n))
  {
  }

  /** The three steps of the match on a URL built from an owner, a repository and digits. */
  lemma PrUrlSteps(owner: string, repo: string, n: nat, tail: string)
    requires owner != [] && repo != [] && '/' !in owner && '/' !in repo
    requires tail == [] || !IsDigit(tail[0])
    ensures var s := PrUrlPrefix + owner + "/" + repo + PullInfix + NatToString(n) + tail;
            var c := |PrUrlPrefix| + |owner| + 1 + |repo|;
            && StartsWith(s, PrUrlPrefix)
            && OwnerRepoEnd(s, |PrUrlPrefix|) == Some(c)
            && PullNumber(s, c) == Some(n)
            && s[|PrUrlPrefix|..c] == owner + "/" + repo
  {
    var digits := NatToString(n);
    var s := PrUrlPrefix + owner + "/" + repo + PullInfix + digits + tail;
    var a := |PrUrlPrefix|;
    var c := a + |owner| + 1 + |repo|;
    var e := c + |PullInfix|;
    PrUrlParts(owner, repo, digits, tail);
    assert s[c] == PullInfix[0];
    OwnerRepoEndOf(s, a, owner, repo);
    assert e + |digits| == |s| || s[e + |digits|] == tail[0];
    PullNumberOf(s, c, digits);
    DigitsRoundTrip(n);
  }

  /** A URL built from an owner, a repository and a PR number is matched back to them. */
  lemma PrUrlRoundTrip(owner: string, repo: string, n: nat, tail: string)
    requires owner != [] && repo != [] && '/' !in owner && '/' !in repo
    requires tail == [] || !IsDigit(tail[0])
    ensures MatchPrUrl(PrUrlPrefix + owner + "/" + repo + PullInfix + NatToString(n) + tail)
            == Some((owner + "/" + repo, n))
  {
    var s := PrUrlPrefix + owner + "/" + repo + PullInfix + NatToString(n) + tail;
    PrUrlSteps(owner, repo, n, tail);
    MatchPrUrlOf(s, |PrUrlPrefix| + |owner| + 1 + |repo|, n);
  }
}
