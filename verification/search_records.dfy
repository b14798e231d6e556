/** Record normalisation in the search tools: GitHub repositories into the
    code-search result map, OpenAlex works into flat records, the engine
    dispatch of the paper search and the paper result map keyed by title.
    The HTTP searches and `fetch_bibtex` are parameters. */
module SearchRecords {
  import opened Wrappers
  import opened Strings
  import opened PyValues

  // ---------------------------------------------------------------------
  // GitHub repositories (`_extract_github_repo_info`, `CodeSearchTool.run`)
  // ---------------------------------------------------------------------

  /** One repository item of the GitHub search response, fields looked up. */
  datatype RawRepo = RawRepo(
    name: string,
    ownerLogin: string,
    stars: nat,
    forks: nat,
    htmlUrl: string,
    description: Option<string>)

  /** The flattened repository record. */
  datatype RepoInfo = RepoInfo(
    name: string,
    owner: string,
    stars: nat,
    forks: nat,
    url: string,
    description: string)

  const NoDescription := "No description provided."

  /** `repo["description"] or "No description provided."`: a null or
      empty description takes the default. The key itself is always
      present in the records modelled here. */
  function ExtractRepoInfo(repo: RawRepo): (r: RepoInfo)
    ensures r.description != ""
    ensures repo.description.Some? && repo.description.value != "" ==> r.description == repo.description.value
    ensures repo.description.None? || repo.description == Some("") ==> r.description == NoDescription
    ensures r.name == repo.name && r.owner == repo.ownerLogin && r.url == repo.htmlUrl
    ensures r.stars == repo.stars && r.forks == repo.forks
  {
    var description := match repo.description
      case Some(d) => if d == "" then NoDescription else d
      case None => NoDescription;
    RepoInfo(repo.name, repo.ownerLogin, repo.stars, repo.forks, repo.htmlUrl, description)
  }

  /** `_extract_github_repo_info`: one record per item, in order. */
  function ExtractGithubRepoInfo(repos: seq<RawRepo>): (r: seq<RepoInfo>)
    ensures |r| == |repos|
    ensures forall i :: 0 <= i < |repos| ==> r[i] == ExtractRepoInfo(repos[i])
  {
    seq(|repos|, i requires 0 <= i < |repos| => ExtractRepoInfo(repos[i]))
  }

  /** An entry of the code-search result map. */
  datatype CodeHit = CodeHit(title: string, source: string, info: string)

  const StarsPrefix := "Stars: "

  function Hit(repo: RepoInfo): CodeHit {
    CodeHit(repo.name, repo.url, StarsPrefix + NatToString(repo.stars))
  }

  /** The star count can be read back from the entry's info. */
  lemma HitStars(repo: RepoInfo)
    ensures StarsPrefix <= Hit(repo).info
    ensures AllDigits(Hit(repo).info[|StarsPrefix|..])
    ensures ParseNat(Hit(repo).info[|StarsPrefix|..]) == repo.stars
  {
    assert Hit(repo).info[|StarsPrefix|..] == NatToString(repo.stars);
    ParseNatToString(repo.stars);
  }

  /** Reference definition of the code-search result map: the i-th
      repository under the key `str(i)`. */
  function CodeHits(rs: seq<RepoInfo>): map<string, CodeHit>
    decreases |rs|
  {
    if |rs| == 0 then map[]
    else CodeHits(rs[..|rs| - 1])[NatToString(|rs| - 1) := Hit(rs[|rs| - 1])]
  }

  /** The decimal renderings of `0 .. n - 1`. */
  function IndexKeys(n: nat): set<string> {
    set i | 0 <= i < n :: NatToString(i)
  }

  /** Every key is the decimal rendering of an index. */
  lemma {:induction false} CodeHitsKeys(rs: seq<RepoInfo>)
    ensures CodeHits(rs).Keys == IndexKeys(|rs|)
    decreases |rs|
  {
    var n := |rs|;
    if n > 0 {
      CodeHitsKeys(rs[..n - 1]);
      assert IndexKeys(n) == IndexKeys(n - 1) + {NatToString(n - 1)};
    }
  }

  /** The key of the last index is new. */
  lemma KeyIsFresh(rs: seq<RepoInfo>)
    requires |rs| > 0
    ensures NatToString(|rs| - 1) !in CodeHits(rs[..|rs| - 1])
  {
    var n := |rs|;
    CodeHitsKeys(rs[..n - 1]);
    forall j | 0 <= j < n - 1
      ensures NatToString(j) != NatToString(n - 1)
    {
      NatToStringInjective(j, n - 1);
    }
  }

  /** The i-th repository sits under the key `str(i)`. */
  lemma {:induction false} CodeHitAt(rs: seq<RepoInfo>, i: nat)
    requires i < |rs|
    ensures NatToString(i) in CodeHits(rs) && CodeHits(rs)[NatToString(i)] == Hit(rs[i])
    decreases |rs|
  {
    var n := |rs|;
    if i < n - 1 {
      var init := rs[..n - 1];
      CodeHitAt(init, i);
      NatToStringInjective(i, n - 1);
      assert init[i] == rs[i];
    }
  }

  /** Each repository adds one key. */
  lemma {:induction false} CodeHitsSize(rs: seq<RepoInfo>)
    ensures |CodeHits(rs)| == |rs|
    decreases |rs|
  {
    if |rs| > 0 {
      CodeHitsSize(rs[..|rs| - 1]);
      KeyIsFresh(rs);
    }
  }

  /** One entry per repository, each under its index. */
  lemma CodeHitsShape(rs: seq<RepoInfo>)
    ensures |CodeHits(rs)| == |rs|
    ensures forall i :: 0 <= i < |rs| ==> NatToString(i) in CodeHits(rs) && CodeHits(rs)[NatToString(i)] == Hit(rs[i])
  {
    CodeHitsSize(rs);
    forall i | 0 <= i < |rs|
      ensures NatToString(i) in CodeHits(rs) && CodeHits(rs)[NatToString(i)] == Hit(rs[i])
    {
      CodeHitAt(rs, i);
    }
  }

  /** The result assembly of `CodeSearchTool.run`. No repositories, or none
      found, gives `{}`. */
  method CodeSearchRun(repos: Option<seq<RepoInfo>>) returns (results: map<string, CodeHit>)
    ensures repos.None? ==> results == map[]
    ensures repos.Some? ==> results == CodeHits(repos.value)
    ensures repos.Some? ==> |results| == |repos.value|
    ensures repos.Some? ==> results.Keys == IndexKeys(|repos.value|)
    ensures repos.Some? ==> forall i :: 0 <= i < |repos.value| ==>
      NatToString(i) in results && results[NatToString(i)] == Hit(repos.value[i])
  {
    results := map[];
    if repos.None? {
      return;
    }
    var rs := repos.value;
    var i := 0;
    while i < |rs|
      invariant 0 <= i <= |rs|
      invariant results == CodeHits(rs[..i])
    {
      assert rs[..i + 1][..i] == rs[..i];
      results := results[NatToString(i) := Hit(rs[i])];
      i := i + 1;
    }
    assert rs[..|rs|] == rs;
    CodeHitsShape(rs);
    CodeHitsKeys(rs);
  }

  // ---------------------------------------------------------------------
  // OpenAlex works (`_extract_work_info`)
  // ---------------------------------------------------------------------

  /** A location of a work; `source` is `None` or a dictionary. */
  datatype Location = Location(source: Option<map<string, string>>)

  /** One OpenAlex work with the fields the extraction reads. A `None` field
      is a missing key, which takes the default of `work.get`. */
  datatype Work = Work(
    title: string,
    locations: seq<Location>,
    authorNames: seq<string>,
    abstractText: Option<string>,
    publicationYear: Option<int>,
    citedByCount: Option<int>)

  /** The flat record of a work. `year` is the number or the text "Unknown". */
  datatype WorkInfo = WorkInfo(
    title: string,
    authors: string,
    venue: string,
    year: JsonValue,
    abstractText: string,
    citationCount: int)

  /** A truthy source: present and a non-empty dictionary. */
  predicate HasSource(loc: Location) {
    loc.source.Some? && |loc.source.value| > 0
  }

  /** The index of the first location with a truthy source. */
  function FirstSourced(locs: seq<Location>, from: nat): (r: Option<nat>)
    requires from <= |locs|
    ensures r.Some? ==> from <= r.value < |locs| && HasSource(locs[r.value])
    ensures r.Some? ==> forall k :: from <= k < r.value ==> !HasSource(locs[k])
    ensures r.None? ==> forall k :: from <= k < |locs| ==> !HasSource(locs[k])
    decreases |locs| - from
  {
    if from == |locs| then None
    else if HasSource(locs[from]) then Some(from)
    else FirstSourced(locs, from + 1)
  }

  /** A sourced location with no sourced one before it is the first. */
  lemma FirstSourcedIs(locs: seq<Location>, i: nat)
    requires i < |locs| && HasSource(locs[i])
    requires forall k :: 0 <= k < i ==> !HasSource(locs[k])
    ensures FirstSourced(locs, 0) == Some(i)
  {
    assert FirstSourced(locs, 0).Some?;
  }

  /** `next((loc["source"]["display_name"] for loc in locations if
      loc["source"]), "Unknown")`: the display name of the first sourced
      location; a source without "display_name" raises `KeyError`. */
  function Venue(locs: seq<Location>): (r: Result<string, Exception>)
    ensures (forall k :: 0 <= k < |locs| ==> !HasSource(locs[k])) ==> r == Success("Unknown")
    ensures forall i :: (0 <= i < |locs| && HasSource(locs[i])
      && (forall k :: 0 <= k < i ==> !HasSource(locs[k]))) ==>
      var src := locs[i].source.value;
      r == if "display_name" in src then Success(src["display_name"]) else Failure(KeyError)
  {
    forall i | 0 <= i < |locs| && HasSource(locs[i]) && (forall k :: 0 <= k < i ==> !HasSource(locs[k]))
      ensures FirstSourced(locs, 0) == Some(i)
    {
      FirstSourcedIs(locs, i);
    }
    match FirstSourced(locs, 0)
    case None => Success("Unknown")
    case Some(i) =>
      var src := locs[i].source.value;
      if "display_name" in src then Success(src["display_name"]) else Failure(KeyError)
  }

  const AuthorCutoff := 20

  lemma JoinStartsWithFirst(sep: string, xs: seq<string>)
    requires |xs| >= 1
    ensures xs[0] <= Join(sep, xs)
  {
  }

  lemma {:induction false} JoinEndsWithLast(sep: string, xs: seq<string>)
    requires |xs| >= 1
    ensures EndsWith(Join(sep, xs), xs[|xs| - 1])
    decreases |xs|
  {
    if |xs| > 1 {
      JoinEndsWithLast(sep, xs[1..]);
      var t := Join(sep, xs[1..]);
      var last := xs[|xs| - 1];
      assert xs[1..][|xs| - 2] == last;
      assert (xs[0] + sep + t)[|xs[0] + sep + t| - |last|..] == t[|t| - |last|..];
    }
  }

  /** Fewer than 20 authors are joined with " and "; otherwise the first
      author followed by " et al.". */
  function Authors(names: seq<string>): (r: string)
    ensures |names| == 0 ==> r == ""
    ensures |names| < AuthorCutoff ==> r == Join(" and ", names)
    ensures 0 < |names| < AuthorCutoff ==> names[0] <= r && EndsWith(r, names[|names| - 1])
    ensures |names| >= AuthorCutoff ==> r == names[0] + " et al."
    ensures |names| >= AuthorCutoff ==> names[0] <= r && EndsWith(r, " et al.")
  {
    if |names| < AuthorCutoff then
      if |names| > 0 then
        JoinStartsWithFirst(" and ", names);
        JoinEndsWithLast(" and ", names);
        Join(" and ", names)
      else Join(" and ", names)
    else
      var r := names[0] + " et al.";
      assert r[|r| - 7..] == " et al.";
      r
  }

  /** A list of fewer than 20 authors keeps every name and adds five
      characters for each " and " between two of them. */
  lemma AuthorsLength(names: seq<string>)
    requires 0 < |names| < AuthorCutoff
    ensures |Authors(names)| == TotalLength(names) + 5 * (|names| - 1)
  {
    JoinLength(" and ", names);
  }

  /** `abstract[:max]` when the abstract is longer than `max`. */
  function TruncateAbstract(abs: string, maxLength: int): (r: string)
    ensures r <= abs
    ensures |abs| <= maxLength ==> r == abs
    ensures maxLength >= 0 ==> |r| == Min(|abs|, maxLength)
  {
    if |abs| > maxLength then Take(abs, maxLength) else abs
  }

  const DefaultMaxAbstract := 1000

  /** `_extract_work_info`. */
  function ExtractWorkInfo(work: Work, maxAbstract: int): (r: Result<WorkInfo, Exception>)
    ensures r.Success? <==> Venue(work.locations).Success?
    ensures r.Success? ==> r.value.title == work.title
    ensures r.Success? ==> r.value.venue == Venue(work.locations).value
    ensures r.Success? ==> r.value.authors == Authors(work.authorNames)
    ensures r.Success? ==> r.value.abstractText == TruncateAbstract(work.abstractText.GetOr(""), maxAbstract)
    ensures r.Success? ==> r.value.year == (if work.publicationYear.Some? then JNumber(work.publicationYear.value as real) else JString("Unknown"))
    ensures r.Success? ==> r.value.citationCount == work.citedByCount.GetOr(0)
  {
    var venue :- Venue(work.locations);
    var year := match work.publicationYear
      case Some(y) => JNumber(y as real)
      case None => JString("Unknown");
    Success(WorkInfo(
      work.title,
      Authors(work.authorNames),
      venue,
      year,
      TruncateAbstract(work.abstractText.GetOr(""), maxAbstract),
      work.citedByCount.GetOr(0)))
  }

  // ---------------------------------------------------------------------
  // Paper search (`search_for_papers`, `PaperSearchTool.run`)
  // ---------------------------------------------------------------------

  /** A paper as the search returns it. OpenAlex records carry no id. */
  datatype Paper = Paper(paperId: Option<string>, title: string)

  datatype PaperEntry = PaperEntry(title: string, bibtex: string)

  /** The records of `_search_openalex`: `None` when nothing was found,
      otherwise one record per work, each without a paper id. */
  function OpenAlexPapers(works: Option<seq<Work>>): (r: Result<Option<seq<Paper>>, Exception>)
    ensures r.Success? && r.value.Some? ==> forall i :: 0 <= i < |r.value.value| ==> r.value.value[i].paperId.None?
    ensures works.None? || works == Some([]) ==> r == Success(None)
  {
    match works
    case None => Success(None)
    case Some(ws) =>
      if |ws| == 0 then Success(None)
      else
        var papers :- WorkPapers(ws);
        Success(Some(papers))
  }

  function WorkPapers(ws: seq<Work>): (r: Result<seq<Paper>, Exception>)
    ensures r.Success? ==> |r.value| == |ws|
    ensures r.Success? ==> forall i :: 0 <= i < |ws| ==> r.value[i] == Paper(None, ws[i].title)
    ensures r.Failure? <==> exists i :: 0 <= i < |ws| && Venue(ws[i].locations).Failure?
    decreases |ws|
  {
    if |ws| == 0 then Success([])
    else
      var info := ExtractWorkInfo(ws[0], DefaultMaxAbstract);
      if info.Failure? then
        assert Venue(ws[0].locations).Failure?;
        Failure(info.error)
      else
        var rest := WorkPapers(ws[1..]);
        if rest.Failure? then
          assert exists i :: 0 <= i < |ws| && Venue(ws[i].locations).Failure? by {
            var j :| 0 <= j < |ws[1..]| && Venue(ws[1..][j].locations).Failure?;
            assert ws[1..][j] == ws[j + 1];
          }
          Failure(rest.error)
        else
          forall i | 0 <= i < |ws|
            ensures Venue(ws[i].locations).Success?
          {
            if i > 0 {
              assert ws[1..][i - 1] == ws[i];
            }
          }
          assert forall i :: 1 <= i < |ws| ==> ws[1..][i - 1] == ws[i];
          Success([Paper(None, info.value.title)] + rest.value)
  }

  /** `search_for_papers`. An empty query returns `None` before the engine
      is looked at; an engine other than the two supported raises. */
  function SearchForPapers(engine: string, query: string, s2: Option<seq<Paper>>, works: Option<seq<Work>>)
    : (r: Result<Option<seq<Paper>>, Exception>)
    ensures query == "" ==> r == Success(None)
    ensures query != "" && engine == "semanticscholar" ==> r == Success(s2)
    ensures query != "" && engine == "openalex" ==> r == OpenAlexPapers(works)
    ensures query != "" && engine != "semanticscholar" && engine != "openalex" ==> r == Failure(NotImplementedError)
  {
    if query == "" then Success(None)
    else if engine == "semanticscholar" then Success(s2)
    else if engine == "openalex" then OpenAlexPapers(works)
    else Failure(NotImplementedError)
  }

  /** The bibtex `run` obtains for a paper: fetched when the paper has a
      non-empty id, "N/A" otherwise. `None` is a JSON null. */
  function BibtexOf(p: Paper, fetch: string -> Option<string>): (r: Option<string>)
    ensures p.paperId.Some? && p.paperId.value != "" ==> r == fetch(p.paperId.value)
    ensures p.paperId.None? || p.paperId == Some("") ==> !UsableBibtex(r)
  {
    if p.paperId.Some? && p.paperId.value != "" then fetch(p.paperId.value) else Some("N/A")
  }

  /** `not bibtex or bibtex == "N/A"` fails. */
  predicate UsableBibtex(b: Option<string>) {
    b.Some? && b.value != "" && b.value != "N/A"
  }

  predicate Kept(p: Paper, fetch: string -> Option<string>) {
    UsableBibtex(BibtexOf(p, fetch))
  }

  /** Reference definition of the paper result map: papers in order, each
      usable one writing its entry under its title. */
  function PaperResults(papers: seq<Paper>, fetch: string -> Option<string>): (r: map<string, PaperEntry>)
    ensures forall t :: t in r ==> r[t].title == t && UsableBibtex(Some(r[t].bibtex))
    ensures forall t :: t in r <==> exists i :: 0 <= i < |papers| && papers[i].title == t && Kept(papers[i], fetch)
    decreases |papers|
  {
    if |papers| == 0 then map[]
    else
      var init := papers[..|papers| - 1];
      var prev := PaperResults(init, fetch);
      var p := papers[|papers| - 1];
      assert forall i :: 0 <= i < |init| ==> init[i] == papers[i];
      if Kept(p, fetch) then prev[p.title := PaperEntry(p.title, BibtexOf(p, fetch).value)] else prev
  }

  /** For a repeated title the last usable paper wins. */
  lemma {:induction false} LastWriterWins(papers: seq<Paper>, fetch: string -> Option<string>, i: nat)
    requires i < |papers| && Kept(papers[i], fetch)
    requires forall j :: i < j < |papers| ==> papers[j].title != papers[i].title || !Kept(papers[j], fetch)
    ensures var r := PaperResults(papers, fetch);
      papers[i].title in r && r[papers[i].title].bibtex == BibtexOf(papers[i], fetch).value
    decreases |papers|
  {
    var n := |papers|;
    var init := papers[..n - 1];
    if i < n - 1 {
      assert init[i] == papers[i];
      forall j | i < j < |init|
        ensures init[j].title != init[i].title || !Kept(init[j], fetch)
      {
        assert init[j] == papers[j];
      }
      LastWriterWins(init, fetch, i);
    }
  }

  /** The loop of `PaperSearchTool.run` over the found papers. */
  method AssemblePaperResults(papers: seq<Paper>, fetch: string -> Option<string>)
    returns (results: map<string, PaperEntry>)
    ensures results == PaperResults(papers, fetch)
    ensures forall t :: t in results ==> results[t].title == t && UsableBibtex(Some(results[t].bibtex))
  {
    results := map[];
    var i := 0;
    while i < |papers|
      invariant 0 <= i <= |papers|
      invariant results == PaperResults(papers[..i], fetch)
    {
      var paper := papers[i];
      var bibtex := BibtexOf(paper, fetch);
      assert papers[..i + 1][..i] == papers[..i];
      if UsableBibtex(bibtex) {
        results := results[paper.title := PaperEntry(paper.title, bibtex.value)];
      }
      i := i + 1;
    }
    assert papers[..|papers|] == papers;
  }

  /** `PaperSearchTool.run`: search, then keep the papers with a usable
      bibtex, keyed by title. */
  function PaperSearchRun(engine: string, query: string, s2: Option<seq<Paper>>,
                          works: Option<seq<Work>>, fetch: string -> Option<string>)
    : (r: Result<map<string, PaperEntry>, Exception>)
    ensures r.Failure? <==> SearchForPapers(engine, query, s2, works).Failure?
    ensures r.Success? ==> forall t :: t in r.value ==> r.value[t].title == t && UsableBibtex(Some(r.value[t].bibtex))
  {
    var papers :- SearchForPapers(engine, query, s2, works);
    match papers
    case None => Success(map[])
    case Some(ps) => Success(PaperResults(ps, fetch))
  }

  /** An empty query yields no results whatever the engine, even an
      unsupported one. */
  lemma EmptyQueryRun(engine: string, s2: Option<seq<Paper>>, works: Option<seq<Work>>, fetch: string -> Option<string>)
    ensures PaperSearchRun(engine, "", s2, works, fetch) == Success(map[])
  {
  }

  /** Papers without ids contribute nothing. */
  lemma NoIdNoResults(ps: seq<Paper>, fetch: string -> Option<string>)
    requires forall i :: 0 <= i < |ps| ==> ps[i].paperId.None?
    ensures PaperResults(ps, fetch) == map[]
  {
    var r := PaperResults(ps, fetch);
    forall i | 0 <= i < |ps|
      ensures !Kept(ps[i], fetch)
    {
      assert BibtexOf(ps[i], fetch) == Some("N/A");
    }
    assert r.Keys == {};
  }

  /** With the OpenAlex engine no record has a paper id, so every bibtex is
      "N/A" and `run` never returns an entry. */
  lemma OpenAlexRunIsEmpty(query: string, s2: Option<seq<Paper>>, works: Option<seq<Work>>, fetch: string -> Option<string>)
    ensures var r := PaperSearchRun("openalex", query, s2, works, fetch);
      r.Success? ==> r.value == map[]
  {
    var found := SearchForPapers("openalex", query, s2, works);
    if found.Success? && found.value.Some? {
      NoIdNoResults(found.value.value, fetch);
    }
  }
}
