/**
 * The decision core of the review dashboard: reading `owner/repo` from the
 * git remote, merging the three PR searches into one list per PR number,
 * the action draft, the `gh pr review` argument list, and the `--pr`
 * argument of the `act` command. Every `git` and `gh` call is replaced by an
 * oracle value.
 */
module ReviewDashboard {
  import opened Wrappers
  import opened Text
  import opened GitHub

  // ---------------------------------------------------------------------------
  // detect_repo: `(?:git@github\.com:|https://github\.com/)(.+/.+?)(?:\.git)?$`
  // ---------------------------------------------------------------------------

  const SshPrefix: string := "git@github.com:"
  const GitSuffix: string := ".git"

  /** A '/' with at least one character on each side, as `.+/.+?` needs. */
  predicate HasInnerSlash(p: string) {
    exists i :: 1 <= i < |p| - 1 && p[i] == '/'
  }

  /**
   * The group `(.+/.+?)` when `(.+/.+?)(?:\.git)?$` is matched against the
   * text after the host prefix. `.` stops at '\n'. The greedy `.+` settles on
   * the last usable '/', and the lazy `.+?` stops before a final ".git" as soon
   * as at least one character is left after that '/'.
   */
  function RemoteGroup(rest: string): Option<string> {
    if '\n' in rest || !HasInnerSlash(rest) then None
    else if EndsWith(rest, GitSuffix) && HasInnerSlash(rest[..|rest| - 4]) && rest[|rest| - 5] != '/' then
      Some(rest[..|rest| - 4])
    else Some(rest)
  }

  /** The text after a recognised GitHub host prefix. */
  function AfterHost(s: string): Option<string> {
    if StartsWith(s, SshPrefix) then Some(s[|SshPrefix|..])
    else if StartsWith(s, PrUrlPrefix) then Some(s[|PrUrlPrefix|..])
    else None
  }

  /**
   * `detect_repo`, given the output of `git remote get-url origin` (`None`
   * when the command fails); a `Failure` is the fatal exit.
   */
  function DetectRepo(remote: Option<string>): Result<string, string> {
    if !Truthy(remote) then Failure("could not detect git remote")
    else
      var s := Strip(remote.value);
      match AfterHost(s)
      case None => Failure("could not parse remote URL: " + s)
      case Some(rest) =>
        match RemoteGroup(rest)
        case None => Failure("could not parse remote URL: " + s)
        case Some(group) => Success(group)
  }

  /** Trailing whitespace (such as the newline git prints) is stripped away. */
  lemma StripTrailing(s: string, ws: string)
    requires s != [] && !IsSpace(s[0]) && !IsSpace(s[|s| - 1])
    requires forall i :: 0 <= i < |ws| ==> IsSpace(ws[i])
    ensures Strip(s + ws) == s
  {
    var t := s + ws;
    var r := Strip(t);
    assert t[0] == s[0];
    assert LeadingSpaces(t) == 0;
    assert !IsSpace(t[|s| - 1]);
    assert forall i :: |s| <= i < |t| ==> t[i] == ws[i - |s|];
    assert |r| == |s|;
    assert r == t[..|s|];
  }

  lemma AfterHostOf(prefix: string, rest: string)
    requires prefix == SshPrefix || prefix == PrUrlPrefix
    ensures AfterHost(prefix + rest) == Some(rest)
  {
    var s := prefix + rest;
    assert s[..|prefix|] == prefix;
    assert s[|prefix|..] == rest;
    if prefix == PrUrlPrefix {
      assert !StartsWith(s, SshPrefix) by {
        assert s[0] == 'h';
      }
    }
  }

  lemma NoNewlineIn(owner: string, repo: string)
    requires '\n' !in owner && '\n' !in repo
    ensures '\n' !in owner + "/" + repo && '\n' !in owner + "/" + repo + GitSuffix
  {
  }

  lemma RemoteGroupGitSuffix(owner: string, repo: string)
    requires owner != [] && repo != [] && '/' !in repo && '\n' !in owner && '\n' !in repo
    ensures RemoteGroup(owner + "/" + repo + GitSuffix) == Some(owner + "/" + repo)
  {
    var group := owner + "/" + repo;
    var rest := group + GitSuffix;
    NoNewlineIn(owner, repo);
    assert group[|owner|] == '/';
    assert rest[|owner|] == '/';
    assert rest[..|rest| - 4] == group;
    assert rest[|rest| - 4..] == GitSuffix;
    assert rest[|rest| - 5] == repo[|repo| - 1] && repo[|repo| - 1] in repo;
  }

  lemma RemoteGroupNoSuffix(owner: string, repo: string)
    requires owner != [] && repo != [] && '/' !in repo && '\n' !in owner && '\n' !in repo
    requires !EndsWith(repo, GitSuffix)
    ensures RemoteGroup(owner + "/" + repo) == Some(owner + "/" + repo)
  {
    var rest := owner + "/" + repo;
    NoNewlineIn(owner, repo);
    assert rest[|owner|] == '/';
    if |repo| >= 4 {
      assert repo[|repo| - 4..] == rest[|rest| - 4..];
    } else if |rest| >= 4 {
      assert rest[|rest| - 4..][|owner| - (|rest| - 4)] == '/';
    }
  }

  /**
   * A GitHub remote `<prefix>owner/repo.git`, followed by any whitespace,
   * gives `owner/repo`.
   */
  lemma DetectRepoGitSuffix(prefix: string, owner: string, repo: string, ws: string)
    requires prefix == SshPrefix || prefix == PrUrlPrefix
    requires owner != [] && repo != [] && '/' !in owner && '/' !in repo && '\n' !in owner && '\n' !in repo
    requires forall i :: 0 <= i < |ws| ==> IsSpace(ws[i])
    ensures DetectRepo(Some(prefix + owner + "/" + repo + GitSuffix + ws)) == Success(owner + "/" + repo)
  {
    var rest := owner + "/" + repo + GitSuffix;
    var s := prefix + rest;
    assert s == prefix + owner + "/" + repo + GitSuffix;
    assert s[0] == prefix[0];
    assert s[|s| - 1] == 't';
    StripTrailing(s, ws);
    AfterHostOf(prefix, rest);
    RemoteGroupGitSuffix(owner, repo);
  }

  /**
   * A GitHub remote `<prefix>owner/repo` without ".git", followed by any
   * whitespace, gives `owner/repo`.
   */
  lemma DetectRepoNoSuffix(prefix: string, owner: string, repo: string, ws: string)
    requires prefix == SshPrefix || prefix == PrUrlPrefix
    requires owner != [] && repo != [] && '/' !in owner && '/' !in repo && '\n' !in owner && '\n' !in repo
    requires !EndsWith(repo, GitSuffix) && !IsSpace(repo[|repo| - 1])
    requires forall i :: 0 <= i < |ws| ==> IsSpace(ws[i])
    ensures DetectRepo(Some(prefix + owner + "/" + repo + ws)) == Success(owner + "/" + repo)
  {
    var rest := owner + "/" + repo;
    var s := prefix + rest;
    assert s == prefix + owner + "/" + repo;
    assert s[0] == prefix[0];
    assert s[|s| - 1] == repo[|repo| - 1];
    StripTrailing(s, ws);
    AfterHostOf(prefix, rest);
    RemoteGroupNoSuffix(owner, repo);
  }

  /**
   * What `detect_repo` returns is what stood between a GitHub host prefix and
   * an optional ".git" in the stripped remote, and it has an inner '/'; any
   * other host fails.
   */
  lemma DetectRepoShape(remote: Option<string>)
    requires DetectRepo(remote).Success?
    ensures Truthy(remote)
    ensures var s, g := Strip(remote.value), DetectRepo(remote).value;
            s == SshPrefix + g || s == SshPrefix + g + GitSuffix ||
            s == PrUrlPrefix + g || s == PrUrlPrefix + g + GitSuffix
    ensures HasInnerSlash(DetectRepo(remote).value) && '\n' !in DetectRepo(remote).value
  {
    var s := Strip(remote.value);
    var pre := if StartsWith(s, SshPrefix) then SshPrefix else PrUrlPrefix;
    var rest := s[|pre|..];
    assert AfterHost(s) == Some(rest);
    assert s == pre + rest;
    RemoteGroupShape(rest);
  }

  /** A captured group is the text after the host, with or without its final ".git". */
  lemma RemoteGroupShape(rest: string)
    requires RemoteGroup(rest).Some?
    ensures var g := RemoteGroup(rest).value;
            (rest == g || rest == g + GitSuffix) && HasInnerSlash(g) && '\n' !in g
  {
    var g := RemoteGroup(rest).value;
    if EndsWith(rest, GitSuffix) && HasInnerSlash(rest[..|rest| - 4]) && rest[|rest| - 5] != '/' {
      assert g == rest[..|rest| - 4];
      assert rest == g + GitSuffix;
      assert forall c :: c in g ==> c in rest;
    }
  }

  // ---------------------------------------------------------------------------
  // find_user_prs
  // ---------------------------------------------------------------------------

  datatype Interaction = Reviewer | Commenter | Both

  /** One PR of a `gh pr list --json number,title,author,url` result; `author` is the login, if any. */
  datatype SearchHit = SearchHit(number: int, title: string, author: Option<string>, url: string)

  /** One entry of the returned list. */
  datatype PrEntry = PrEntry(number: int, title: string, author: string, url: string, interaction: Interaction)

  /** A missing or empty author object is recorded as "unknown". */
  function AuthorLogin(author: Option<string>): string {
    author.GetOr("unknown")
  }

  /** The three searches, in the order they run, each with the interaction it stands for. */
  function SearchTerms(username: string): seq<(string, Interaction)> {
    [("reviewed-by:" + username, Reviewer),
     ("commenter:" + username, Commenter),
     ("review-requested:" + username, Reviewer)]
  }

  /** The search hits in the order the loops visit them, each tagged with its search's interaction. */
  function Tagged(batches: seq<(seq<SearchHit>, Interaction)>): seq<(SearchHit, Interaction)> {
    if batches == [] then []
    else
      var last := batches[|batches| - 1];
      Tagged(batches[..|batches| - 1]) + Tag(last.0, last.1)
  }

  function Tag(hits: seq<SearchHit>, kind: Interaction): seq<(SearchHit, Interaction)> {
    seq(|hits|, i requires 0 <= i < |hits| => (hits[i], kind))
  }

  /** The results of the three searches, where `search(term)` is what `gh pr list --search term` returned. */
  function Batches(username: string, search: string -> seq<SearchHit>): seq<(seq<SearchHit>, Interaction)> {
    var terms := SearchTerms(username);
    [(search(terms[0].0), terms[0].1), (search(terms[1].0), terms[1].1), (search(terms[2].0), terms[2].1)]
  }

  function NewEntry(hit: SearchHit, kind: Interaction): PrEntry {
    PrEntry(hit.number, hit.title, AuthorLogin(hit.author), hit.url, kind)
  }

  /**
   * The loops visit the hits of reviewed-by, then commenter, then
   * review-requested, each hit in the order its search returned it, paired
   * with that search's interaction.
   */
  lemma TaggedSearches(username: string, search: string -> seq<SearchHit>)
    ensures var t := Tagged(Batches(username, search));
            var reviewed, commented, requested :=
              search("reviewed-by:" + username), search("commenter:" + username), search("review-requested:" + username);
            && |t| == |reviewed| + |commented| + |requested|
            && (forall i :: 0 <= i < |reviewed| ==> t[i] == (reviewed[i], Reviewer))
            && (forall i :: 0 <= i < |commented| ==> t[|reviewed| + i] == (commented[i], Commenter))
            && (forall i :: 0 <= i < |requested| ==> t[|reviewed| + |commented| + i] == (requested[i], Reviewer))
  {
    var b := Batches(username, search);
    assert b[..2][..1][..0] == [];
    assert Tagged(b[..2][..1]) == Tag(b[0].0, b[0].1);
    assert Tagged(b[..2]) == Tag(b[0].0, b[0].1) + Tag(b[1].0, b[1].1);
    assert Tagged(b) == Tag(b[0].0, b[0].1) + Tag(b[1].0, b[1].1) + Tag(b[2].0, b[2].1);
  }

  /** One step of the `seen` update: a new number is recorded, a known one may become "both". */
  function MergeHit(seen: map<int, PrEntry>, hit: SearchHit, kind: Interaction): map<int, PrEntry> {
    if hit.number in seen then
      if seen[hit.number].interaction != kind then seen[hit.number := seen[hit.number].(interaction := Both)]
      else seen
    else seen[hit.number := NewEntry(hit, kind)]
  }

  /** The `seen` dictionary after the given tagged hits, in order. */
  function Merge(tagged: seq<(SearchHit, Interaction)>): map<int, PrEntry> {
    if tagged == [] then map[]
    else
      var last := tagged[|tagged| - 1];
      MergeHit(Merge(tagged[..|tagged| - 1]), last.0, last.1)
  }

  /** Index of the first hit with number `n`, or `None` when there is none. */
  function FirstWith(tagged: seq<(SearchHit, Interaction)>, n: int): (r: Option<nat>)
    ensures r.None? <==> forall j :: 0 <= j < |tagged| ==> tagged[j].0.number != n
    ensures r.Some? ==> r.value < |tagged| && tagged[r.value].0.number == n
                        && forall j :: 0 <= j < r.value ==> tagged[j].0.number != n
  {
    if tagged == [] then None
    else
      var r := FirstWith(tagged[..|tagged| - 1], n);
      if r.Some? then r
      else if tagged[|tagged| - 1].0.number == n then Some(|tagged| - 1)
      else None
  }

  /** Every hit with number `n` came from a search of interaction `kind`. */
  predicate SameKind(tagged: seq<(SearchHit, Interaction)>, n: int, kind: Interaction) {
    forall j :: 0 <= j < |tagged| && tagged[j].0.number == n ==> tagged[j].1 == kind
  }

  /**
   * The entry `Merge` keeps for a number: title, author and url of its first
   * hit, and that hit's interaction unless a hit of another interaction
   * followed, in which case "both".
   */
  function ExpectedEntry(tagged: seq<(SearchHit, Interaction)>, n: int): PrEntry
    requires FirstWith(tagged, n).Some?
  {
    var first := tagged[FirstWith(tagged, n).value];
    NewEntry(first.0, if SameKind(tagged, n, first.1) then first.1 else Both)
  }

  /**
   * The merge records exactly the numbers that some search returned, one
   * entry each, built from the first hit, with "both" exactly when hits of
   * different interactions were seen.
   */
  lemma {:induction false} MergeEntries(tagged: seq<(SearchHit, Interaction)>)
    ensures forall n :: n in Merge(tagged) <==> FirstWith(tagged, n).Some?
    ensures forall n :: n in Merge(tagged) ==> Merge(tagged)[n] == ExpectedEntry(tagged, n)
  {
    if tagged != [] {
      var init := tagged[..|tagged| - 1];
      var last := tagged[|tagged| - 1];
      MergeEntries(init);
      assert Merge(tagged) == MergeHit(Merge(init), last.0, last.1);
      forall n
        ensures n in Merge(tagged) <==> FirstWith(tagged, n).Some?
        ensures n in Merge(tagged) ==> Merge(tagged)[n] == ExpectedEntry(tagged, n)
      {
        if n != last.0.number {
          assert FirstWith(tagged, n) == FirstWith(init, n);
          if n in Merge(init) {
            var i := FirstWith(init, n).value;
            assert tagged[i] == init[i];
            assert SameKind(tagged, n, init[i].1) <==> SameKind(init, n, init[i].1);
          }
        } else if n in Merge(init) {
          var i := FirstWith(init, n).value;
          assert FirstWith(tagged, n) == Some(i);
          var k := init[i].1;
          assert tagged[i].1 == k;
          assert SameKind(tagged, n, k) <==> SameKind(init, n, k) && last.1 == k;
        } else {
          assert FirstWith(tagged, n) == Some(|tagged| - 1);
          assert SameKind(tagged, n, last.1);
        }
      }
    }
  }

  /**
   * A PR found only by the reviewed-by and review-requested searches stays a
   * "reviewer"; one also found by the commenter search becomes "both".
   */
  lemma ReviewerSearchesNotBoth(username: string, search: string -> seq<SearchHit>, n: int)
    requires n in Merge(Tagged(Batches(username, search)))
    ensures var t := Tagged(Batches(username, search));
            Merge(t)[n].interaction == Both <==>
              (exists j :: 0 <= j < |t| && t[j].0.number == n && t[j].1 == Reviewer) &&
              (exists j :: 0 <= j < |t| && t[j].0.number == n && t[j].1 == Commenter)
  {
    var b := Batches(username, search);
    var t := Tagged(b);
    MergeEntries(t);
    TaggedKinds(b);
    var k := t[FirstWith(t, n).value].1;
    if !SameKind(t, n, k) {
      var j :| 0 <= j < |t| && t[j].0.number == n && t[j].1 != k;
    }
  }

  lemma {:induction false} TaggedKinds(batches: seq<(seq<SearchHit>, Interaction)>)
    requires forall b :: 0 <= b < |batches| ==> batches[b].1 != Both
    ensures forall j :: 0 <= j < |Tagged(batches)| ==> Tagged(batches)[j].1 != Both
  {
    if batches != [] {
      TaggedKinds(batches[..|batches| - 1]);
    }
  }

  /** The returned list: strictly ascending numbers, and exactly the merged entries not authored by the user. */
  ghost predicate UserPrs(prs: seq<PrEntry>, seen: map<int, PrEntry>, username: string) {
    (forall i, j :: 0 <= i < j < |prs| ==> prs[i].number < prs[j].number) &&
    (forall e :: e in prs <==> e in seen.Values && e.author != username)
  }

  lemma Pick(s: set<int>) returns (x: int)
    requires s != {}
    ensures x in s
  {
    if forall y :: y !in s {
      assert false;
    }
    x :| x in s;
  }
  lemma InRest(s: set<int>, x: int, j: int)
    requires j in s && j != x
    ensures j in s - {x}
  {
  }
  lemma {:induction false} MinExists(s: set<int>)
    requires s != {}
    ensures exists k :: k in s && forall j :: j in s ==> k <= j
    decreases |s|
  {
    var x := Pick(s);
    var rest := s - {x};
    if rest == {} {
      forall j | j in s ensures x <= j {
        if j != x {
          InRest(s, x, j);
          assert false;
        }
      }
    } else {
      MinExists(rest);
      var m :| m in rest && forall j :: j in rest ==> m <= j;
      var k := if x < m then x else m;
      forall j | j in s ensures k <= j {
        if j != x {
          InRest(s, x, j);
        }
      }
      assert k in s;
    }
  }
  lemma ValueKey(kept: map<int, PrEntry>, e: PrEntry) returns (n: int)
    requires e in kept.Values
    ensures n in kept && kept[n] == e
  {
    if forall k :: k in kept ==> kept[k] != e {
      assert false;
    }
    n :| n in kept && kept[n] == e;
  }

  lemma MergeNumbers(tagged: seq<(SearchHit, Interaction)>)
    ensures forall n :: n in Merge(tagged) ==> Merge(tagged)[n].number == n
  {
    MergeEntries(tagged);
  }

  /** Appending one more hit of a batch is one `MergeHit` step. */
  lemma MergeStep(before: seq<(SearchHit, Interaction)>, hits: seq<SearchHit>, kind: Interaction, i: nat)
    requires i < |hits|
    ensures Merge(before + Tag(hits[..i + 1], kind)) == MergeHit(Merge(before + Tag(hits[..i], kind)), hits[i], kind)
  {
    assert before + Tag(hits[..i + 1], kind) == (before + Tag(hits[..i], kind)) + [(hits[i], kind)];
  }

  /** The inner loop of `find_user_prs`: fold one search's hits into `seen`. */
  method MergeBatch(seen0: map<int, PrEntry>, hits: seq<SearchHit>, kind: Interaction,
                    ghost before: seq<(SearchHit, Interaction)>) returns (seen: map<int, PrEntry>)
    requires seen0 == Merge(before)
    ensures seen == Merge(before + Tag(hits, kind))
  {
    seen := seen0;
    assert before + Tag(hits[..0], kind) == before;
    for i := 0 to |hits|
      invariant seen == Merge(before + Tag(hits[..i], kind))
    {
      var hit := hits[i];
      MergeStep(before, hits, kind, i);
      if hit.number in seen {
        if seen[hit.number].interaction != kind {
          seen := seen[hit.number := seen[hit.number].(interaction := Both)];
        }
      } else {
        seen := seen[hit.number := NewEntry(hit, kind)];
      }
    }
    assert hits[..|hits|] == hits;
  }

  /**
   * The hits of each search when `gh(term)` is the outcome of
   * `gh pr list --search term`: `None` when `gh` exits non-zero, which ends
   * the program.
   */
  function HitsOf(gh: string -> Option<seq<SearchHit>>): string -> seq<SearchHit> {
    term => gh(term).GetOr([])
  }

  /** One of the three searches fails, so `find_user_prs` never returns. */
  predicate SearchFails(username: string, gh: string -> Option<seq<SearchHit>>) {
    exists k :: 0 <= k < |SearchTerms(username)| && gh(SearchTerms(username)[k].0).None?
  }

  /**
   * The outer loop of `find_user_prs`: run the three searches in order; a
   * failed search is the fatal exit, `None`.
   */
  method MergeSearches(username: string, gh: string -> Option<seq<SearchHit>>) returns (seen: Option<map<int, PrEntry>>)
    ensures seen.None? <==> SearchFails(username, gh)
    ensures seen.Some? ==> seen.value == Merge(Tagged(Batches(username, HitsOf(gh))))
  {
    var terms := SearchTerms(username);
    ghost var batches := Batches(username, HitsOf(gh));
    var merged: map<int, PrEntry> := map[];
    for b := 0 to |terms|
      invariant forall k :: 0 <= k < b ==> gh(terms[k].0).Some?
      invariant merged == Merge(Tagged(batches[..b]))
    {
      var term := terms[b].0;
      var kind := terms[b].1;
      var result := gh(term);
      if result.None? {
        return None;
      }
      var hits := result.value;
      assert batches[b] == (hits, kind);
      assert batches[..b + 1][..b] == batches[..b];
      merged := MergeBatch(merged, hits, kind, Tagged(batches[..b]));
    }
    assert batches[..|terms|] == batches;
    seen := Some(merged);
  }

  /**
   * The final `sort` by number of the kept entries; keys are the entries'
   * own numbers, so the sorted list is strictly increasing.
   */
  method SortByNumber(kept: map<int, PrEntry>) returns (prs: seq<PrEntry>)
    requires forall n :: n in kept ==> kept[n].number == n
    ensures forall i, j :: 0 <= i < j < |prs| ==> prs[i].number < prs[j].number
    ensures forall e :: e in prs <==> e in kept.Values
  {
    prs := [];
    var remaining := kept.Keys;
    while remaining != {}
      invariant remaining <= kept.Keys
      invariant forall i, j :: 0 <= i < j < |prs| ==> prs[i].number < prs[j].number
      invariant forall i, k :: 0 <= i < |prs| && k in remaining ==> prs[i].number < k
      invariant forall i :: 0 <= i < |prs| ==> prs[i].number in kept && prs[i].number !in remaining && kept[prs[i].number] == prs[i]
      invariant forall n :: n in kept && n !in remaining ==> kept[n] in prs
      decreases |remaining|
    {
      MinExists(remaining);
      var n :| n in remaining && forall j :: j in remaining ==> n <= j;
      prs := prs + [kept[n]];
      remaining := remaining - {n};
    }
    forall e | e in kept.Values
      ensures e in prs
    {
      var n := ValueKey(kept, e);
    }
  }

  /**
   * `find_user_prs`: run the three searches, fold their hits into `seen`,
   * drop the user's own PRs and sort by number; `None` is the fatal exit of
   * a failed search.
   */
  method FindUserPrs(username: string, gh: string -> Option<seq<SearchHit>>) returns (prs: Option<seq<PrEntry>>)
    ensures prs.None? <==> SearchFails(username, gh)
    ensures prs.Some? ==> UserPrs(prs.value, Merge(Tagged(Batches(username, HitsOf(gh)))), username)
  {
    var merged := MergeSearches(username, gh);
    if merged.None? {
      return None;
    }
    var seen := merged.value;
    MergeNumbers(Tagged(Batches(username, HitsOf(gh))));
    var kept := map n | n in seen && seen[n].author != username :: seen[n];
    var sorted := SortByNumber(kept);
    forall e | e in seen.Values && e.author != username
      ensures e in kept.Values
    {
      var n := ValueKey(seen, e);
      assert kept[n] == e;
    }
    forall e | e in kept.Values
      ensures e in seen.Values && e.author != username
    {
      var n := ValueKey(kept, e);
      assert seen[n] == e;
    }
    prs := Some(sorted);
  }

  /** Every PR a search returned is listed unless its recorded author is the user. */
  lemma UserPrsComplete(prs: seq<PrEntry>, tagged: seq<(SearchHit, Interaction)>, username: string, n: int)
    requires UserPrs(prs, Merge(tagged), username)
    requires FirstWith(tagged, n).Some?
    ensures ExpectedEntry(tagged, n) in prs <==> ExpectedEntry(tagged, n).author != username
  {
    MergeEntries(tagged);
    assert Merge(tagged)[n] in Merge(tagged).Values;
  }

  /**
   * At most one entry per PR number; a PR whose first hit had no author is
   * listed with author "unknown" (unless the user is called "unknown").
   */
  lemma UserPrsUnique(prs: seq<PrEntry>, tagged: seq<(SearchHit, Interaction)>, username: string, n: int)
    requires UserPrs(prs, Merge(tagged), username)
    ensures forall i, j :: 0 <= i < |prs| && 0 <= j < |prs| && prs[i].number == prs[j].number ==> i == j
    ensures FirstWith(tagged, n).Some? && tagged[FirstWith(tagged, n).value].0.author.None? && username != "unknown"
            ==> exists e :: e in prs && e.number == n && e.author == "unknown"
  {
    if FirstWith(tagged, n).Some? && tagged[FirstWith(tagged, n).value].0.author.None? && username != "unknown" {
      UserPrsComplete(prs, tagged, username, n);
      assert ExpectedEntry(tagged, n).author == "unknown";
    }
  }

  // ---------------------------------------------------------------------------
  // truncate (the dashboard's default width) and format_action_draft
  // ---------------------------------------------------------------------------

  /** `action_labels.get(action, action)` */
  function ActionLabel(action: string): string {
    if action == "approve" then "APPROVE"
    else if action == "request-changes" then "REQUEST_CHANGES"
    else if action == "comment" then "COMMENT"
    else action
  }

  const EmptyBodyLine: string := "\n**Body:** _(empty - will submit without comment)_"

  /** The body line of the draft: the quoted body, or a note that it is empty. */
  function BodyLine(body: Option<string>): string {
    if Truthy(body) then "\n**Body:**\n> " + body.value else EmptyBodyLine
  }

  /** The lines `format_action_draft` joins with newlines. */
  function DraftLines(repo: string, prNumber: nat, action: string, body: Option<string>): seq<string> {
    ["# Action Draft\n",
     "**Repository:** " + repo,
     "**PR:** #" + NatToString(prNumber),
     "**Action:** " + ActionLabel(action),
     BodyLine(body),
     "\n---",
     "To execute, run the same command without `--draft`."]
  }

  /** The draft text: the draft lines joined with newlines. */
  function DraftText(repo: string, prNumber: nat, action: string, body: Option<string>): string {
    Join(DraftLines(repo, prNumber, action, body), "\n")
  }

  /** `format_action_draft`: collect the lines one by one, then join them. */
  method FormatActionDraft(repo: string, prNumber: nat, action: string, body: Option<string>) returns (text: string)
    ensures text == DraftText(repo, prNumber, action, body)
  {
    var lines := ["# Action Draft\n",
                  "**Repository:** " + repo,
                  "**PR:** #" + NatToString(prNumber),
                  "**Action:** " + ActionLabel(action)];
    if Truthy(body) {
      lines := lines + ["\n**Body:**\n> " + body.value];
    } else {
      lines := lines + [EmptyBodyLine];
    }
    lines := lines + ["\n---"];
    lines := lines + ["To execute, run the same command without `--draft`."];
    assert lines == DraftLines(repo, prNumber, action, body);
    text := Join(lines, "\n");
  }

  /** A non-empty body is quoted in the body line. */
  lemma QuotedBodyShown(b: string)
    requires b != ""
    ensures Contains(BodyLine(Some(b)), "> " + b)
  {
    var quoted := "> " + b;
    assert "\n**Body:**\n" + quoted + "" == BodyLine(Some(b));
    ContainsInfix("\n**Body:**\n", quoted, "");
  }

  /** The draft names the repository, the PR, the action's label and the body (or its absence). */
  lemma DraftShows(repo: string, prNumber: nat, action: string, body: Option<string>)
    ensures Contains(DraftText(repo, prNumber, action, body), "**Repository:** " + repo)
    ensures Contains(DraftText(repo, prNumber, action, body), "**PR:** #" + NatToString(prNumber))
    ensures Contains(DraftText(repo, prNumber, action, body), "**Action:** " + ActionLabel(action))
    ensures Truthy(body) ==> Contains(DraftText(repo, prNumber, action, body), "> " + body.value)
    ensures !Truthy(body) ==> Contains(DraftText(repo, prNumber, action, body), EmptyBodyLine)
  {
    var lines := DraftLines(repo, prNumber, action, body);
    var text := DraftText(repo, prNumber, action, body);
    JoinContains(lines, "\n", 1);
    JoinContains(lines, "\n", 2);
    JoinContains(lines, "\n", 3);
    JoinContains(lines, "\n", 4);
    if Truthy(body) {
      QuotedBodyShown(body.value);
      ContainsWithin(text, lines[4], "> " + body.value);
    }
  }

  /** The three known actions get their review labels; any other action is shown as given. */
  lemma ActionLabels(action: string)
    ensures ActionLabel("approve") == "APPROVE"
    ensures ActionLabel("request-changes") == "REQUEST_CHANGES"
    ensures ActionLabel("comment") == "COMMENT"
    ensures action != "approve" && action != "request-changes" && action != "comment" ==> ActionLabel(action) == action
    ensures ActionLabel(action) == action <==> action != "approve" && action != "request-changes" && action != "comment"
  {
  }

  // ---------------------------------------------------------------------------
  // execute_action
  // ---------------------------------------------------------------------------

  /** The flag `gh pr review` gets for an action, or `None` for an unknown action. */
  function ReviewFlag(action: string): Option<string> {
    if action == "approve" then Some("--approve")
    else if action == "request-changes" then Some("--request-changes")
    else if action == "comment" then Some("--comment")
    else None
  }

  /** The argument list after `gh`, or `None` when the action is unknown and nothing runs. */
  function ReviewArgs(repo: string, prNumber: nat, action: string, body: Option<string>): Option<seq<string>> {
    match ReviewFlag(action)
    case None => None
    case Some(flag) =>
      Some(["pr", "review", NatToString(prNumber), "--repo", repo, flag] +
           (if Truthy(body) then ["--body", body.value] else []))
  }

  /** The action named by a review flag. */
  function FlagAction(flag: string): Option<string> {
    if flag == "--approve" then Some("approve")
    else if flag == "--request-changes" then Some("request-changes")
    else if flag == "--comment" then Some("comment")
    else None
  }

  /** Reads a `gh pr review` argument list back into (repo, number, action, body). */
  function DecodeReviewArgs(args: seq<string>): Option<(string, nat, string, Option<string>)> {
    if (|args| == 6 || (|args| == 8 && args[6] == "--body")) &&
       args[0] == "pr" && args[1] == "review" && IsDigitString(args[2]) && args[3] == "--repo" &&
       FlagAction(args[5]).Some?
    then Some((args[4], DigitsValue(args[2]), FlagAction(args[5]).value, if |args| == 8 then Some(args[7]) else None))
    else None
  }

  /**
   * The argument list carries the repository, the number, exactly one action
   * flag and the body exactly when it is non-empty: it reads back to them.
   */
  lemma ReviewArgsRoundTrip(repo: string, prNumber: nat, action: string, body: Option<string>)
    ensures ReviewArgs(repo, prNumber, action, body).None? <==> ReviewFlag(action).None?
    ensures ReviewArgs(repo, prNumber, action, body).Some? ==>
              DecodeReviewArgs(ReviewArgs(repo, prNumber, action, body).value)
              == Some((repo, prNumber, action, if Truthy(body) then body else None))
  {
    DigitsRoundTrip(prNumber);
  }

  /**
   * `execute_action`, with `exitCode(args)` the exit status of `gh` run with
   * `args`: returns whether the review was submitted, and the arguments
   * `gh` ran with (`None` when it was not run).
   */
  method ExecuteAction(repo: string, prNumber: nat, action: string, body: Option<string>,
                       exitCode: seq<string> -> int)
    returns (ok: bool, invoked: Option<seq<string>>)
    ensures invoked == ReviewArgs(repo, prNumber, action, body)
    ensures invoked.None? <==> ReviewFlag(action).None?
    ensures ok <==> invoked.Some? && exitCode(invoked.value) == 0
  {
    var ghArgs := ["pr", "review", NatToString(prNumber), "--repo", repo];
    if action == "approve" {
      ghArgs := ghArgs + ["--approve"];
    } else if action == "request-changes" {
      ghArgs := ghArgs + ["--request-changes"];
    } else if action == "comment" {
      ghArgs := ghArgs + ["--comment"];
    } else {
      return false, None;
    }
    if Truthy(body) {
      ghArgs := ghArgs + ["--body", body.value];
    }
    assert ghArgs == ReviewArgs(repo, prNumber, action, body).value;
    invoked := Some(ghArgs);
    ok := exitCode(ghArgs) == 0;
  }

  // ---------------------------------------------------------------------------
  // cmd_act: the repository and the PR number
  // ---------------------------------------------------------------------------

  /** The repository `cmd_act` starts from. */
  function BaseRepo(repoArg: Option<string>, remote: Option<string>): Result<string, string> {
    if Truthy(repoArg) then Success(repoArg.value) else DetectRepo(remote)
  }

  /**
   * The (repository, PR number) `cmd_act` works on: the `--repo` value or the
   * detected remote, overridden by the repository of a PR URL; a bare number
   * keeps the repository. Either step can be the fatal exit.
   */
  function ActTarget(repoArg: Option<string>, remote: Option<string>, prArg: string): Result<(string, nat), string> {
    var repo := BaseRepo(repoArg, remote);
    if repo.Failure? then Failure(repo.error)
    else
      match MatchPrUrl(prArg)
      case Some((group, n)) => Success((group, n))
      case None =>
        if IsDigitString(prArg) then Success((repo.value, DigitsValue(prArg)))
        else Failure("could not parse PR: " + prArg)
  }

  /** A PR URL overrides the repository; a bare number keeps it. */
  lemma ActTargetChoice(repoArg: Option<string>, remote: Option<string>, owner: string, repo: string, n: nat)
    requires BaseRepo(repoArg, remote).Success?
    requires owner != [] && repo != [] && '/' !in owner && '/' !in repo
    ensures ActTarget(repoArg, remote, PrUrlPrefix + owner + "/" + repo + PullInfix + NatToString(n))
            == Success((owner + "/" + repo, n))
    ensures ActTarget(repoArg, remote, NatToString(n)) == Success((BaseRepo(repoArg, remote).value, n))
  {
    PrUrlRoundTrip(owner, repo, n, "");
    assert PrUrlPrefix + owner + "/" + repo + PullInfix + NatToString(n) + ""
        == PrUrlPrefix + owner + "/" + repo + PullInfix + NatToString(n);
    DigitsRoundTrip(n);
    var s := NatToString(n);
    assert !StartsWith(s, PrUrlPrefix) by {
      if |PrUrlPrefix| <= |s| {
        assert IsDigit(s[0]) && s[0] == s[..|PrUrlPrefix|][0];
      }
    }
  }

  /**
   * `act` fails exactly when no repository is found or the PR argument is
   * neither a PR URL nor all digits ("could not parse PR").
   */
  lemma ActTargetRejects(repoArg: Option<string>, remote: Option<string>, prArg: string)
    ensures ActTarget(repoArg, remote, prArg).Failure? <==>
              BaseRepo(repoArg, remote).Failure? || (MatchPrUrl(prArg).None? && !IsDigitString(prArg))
    ensures BaseRepo(repoArg, remote).Success? && MatchPrUrl(prArg).None? && !IsDigitString(prArg) ==>
              ActTarget(repoArg, remote, prArg) == Failure("could not parse PR: " + prArg)
  {
  }

  /** Without a repository nothing else is looked at: the PR argument cannot rescue a failed detection. */
  lemma ActTargetNeedsRepo(repoArg: Option<string>, remote: Option<string>, prArg: string)
    requires BaseRepo(repoArg, remote).Failure?
    ensures ActTarget(repoArg, remote, prArg) == Failure(BaseRepo(repoArg, remote).error)
  {
  }
}
