/** `Reviewer._format_paper_results` and the query cache of
    `Reviewer._get_related_works`. The paper searcher is a parameter that
    either returns the found papers or raises. */
module RelatedWorks {
  import opened Wrappers
  import opened Strings
  import opened PyValues
  import SearchRecords

  /** A paper record as the searcher hands it over. */
  type PaperDict = map<string, string>

  /** `p.get(key, default)` */
  function Get(p: PaperDict, key: string, default: string): string {
    if key in p then p[key] else default
  }

  const NoTitle := "No title"
  const NoAuthors := "No authors"
  const NoVenue := "No venue"

  /** The entry `f"{i}: {title}. {source}. {info}"` with the defaults
      "No title", "No authors" and "No venue". */
  function PaperLine(i: nat, p: PaperDict): (r: string)
    ensures NatToString(i) + ": " <= r
  {
    var head := NatToString(i) + ": ";
    var rest := Get(p, "title", NoTitle) + ". " + Get(p, "source", NoAuthors) + ". " + Get(p, "info", NoVenue);
    assert head + rest == NatToString(i) + ": " + Get(p, "title", NoTitle) + ". "
      + Get(p, "source", NoAuthors) + ". " + Get(p, "info", NoVenue);
    head + rest
  }

  function PaperLines(papers: seq<PaperDict>): (r: seq<string>)
    ensures |r| == |papers|
    ensures forall i :: 0 <= i < |papers| ==> r[i] == PaperLine(i, papers[i])
  {
    seq(|papers|, i requires 0 <= i < |papers| => PaperLine(i, papers[i]))
  }

  const NoPapers := "No papers found."

  /** `_format_paper_results`: "No papers found." for no papers, otherwise
      the numbered entries separated by blank lines. */
  function FormatPaperResults(papers: seq<PaperDict>): (r: string)
    ensures |papers| == 0 ==> r == NoPapers
    ensures |papers| > 0 ==> r == Join("\n\n", PaperLines(papers))
  {
    if |papers| == 0 then NoPapers else Join("\n\n", PaperLines(papers))
  }

  /** The record's three fields hold no newline. */
  predicate SingleLine(p: PaperDict) {
    forall key :: key in p ==> '\n' !in p[key]
  }

  lemma DigitsHaveNoNewline(s: string)
    requires AllDigits(s)
    ensures '\n' !in s
  {
    assert forall i :: 0 <= i < |s| ==> s[i] != '\n';
  }

  lemma PaperLineSingle(i: nat, p: PaperDict)
    requires SingleLine(p)
    ensures '\n' !in PaperLine(i, p)
  {
    DigitsHaveNoNewline(NatToString(i));
    var t := Get(p, "title", NoTitle);
    var s := Get(p, "source", NoAuthors);
    var f := Get(p, "info", NoVenue);
    assert '\n' !in t && '\n' !in s && '\n' !in f;
    assert PaperLine(i, p) == NatToString(i) + ": " + t + ". " + s + ". " + f;
    forall c | c in PaperLine(i, p)
      ensures c != '\n'
    {
      assert c in NatToString(i) || c in ": " || c in t || c in ". " || c in s || c in f;
    }
  }

  /** When no field holds a newline, splitting the text at blank lines gives
      back exactly one entry per paper, the i-th numbered `i`. */
  lemma FormatSplits(papers: seq<PaperDict>)
    requires |papers| > 0
    requires forall i :: 0 <= i < |papers| ==> SingleLine(papers[i])
    ensures Split(FormatPaperResults(papers), "\n\n") == PaperLines(papers)
    ensures forall i :: 0 <= i < |papers| ==>
      NatToString(i) + ": " <= Split(FormatPaperResults(papers), "\n\n")[i]
  {
    var lines := PaperLines(papers);
    forall i | 0 <= i < |lines|
      ensures "\n\n"[0] !in lines[i]
    {
      PaperLineSingle(i, papers[i]);
    }
    SplitJoin("\n\n", lines);
  }

  /** An entry opens with its title, or "No title" when the record has
      none, and closes with its venue, or "No venue". */
  lemma PaperLineFields(i: nat, p: PaperDict)
    ensures "title" in p ==> NatToString(i) + ": " + p["title"] + ". " <= PaperLine(i, p)
    ensures "info" in p ==> EndsWith(PaperLine(i, p), ". " + p["info"])
    ensures "info" !in p ==> EndsWith(PaperLine(i, p), ". " + NoVenue)
  {
    EntryPieces(NatToString(i) + ": ", Get(p, "title", NoTitle), Get(p, "source", NoAuthors), Get(p, "info", NoVenue));
  }

  lemma NoTitleDefault(i: nat, p: PaperDict)
    requires "title" !in p
    ensures NatToString(i) + ": " + NoTitle + ". " <= PaperLine(i, p)
  {
    EntryPieces(NatToString(i) + ": ", NoTitle, Get(p, "source", NoAuthors), Get(p, "info", NoVenue));
  }

  /** A record with none of the three fields shows all three defaults. */
  lemma PaperLineEmpty(i: nat)
    ensures PaperLine(i, map[]) == NatToString(i) + ": " + NoTitle + ". " + NoAuthors + ". " + NoVenue
  {
    EntryPieces(NatToString(i) + ": ", NoTitle, NoAuthors, NoVenue);
  }

  /** How the pieces of an entry line up, for any head `h`. */
  lemma EntryPieces(h: string, t: string, a: string, v: string)
    ensures var r := h + (t + ". " + a + ". " + v);
      && h + t + ". " <= r
      && EndsWith(r, ". " + v)
      && r == h + t + ". " + a + ". " + v
  {
    var r := h + (t + ". " + a + ". " + v);
    assert r == (h + t + ". ") + (a + ". " + v);
    assert r == (h + t + ". " + a) + (". " + v);
  }

  /** A paper-search result entry as a record: a title and a bibtex, so the
      entry line falls back to "No authors" and "No venue". */
  function EntryRecord(e: SearchRecords.PaperEntry): PaperDict {
    map["title" := e.title, "bibtex" := e.bibtex]
  }

  lemma EntryLine(i: nat, e: SearchRecords.PaperEntry)
    ensures PaperLine(i, EntryRecord(e)) == NatToString(i) + ": " + e.title + ". No authors. No venue"
  {
  }

  // ---------------------------------------------------------------------
  // The query cache
  // ---------------------------------------------------------------------

  type Cache = map<string, seq<PaperDict>>

  /** The text `_get_related_works` returns or the exception it raises, the
      cache after the call, and whether the searcher was called. */
  datatype Lookup = Lookup(text: Result<string, Exception>, cache: Cache, searched: bool)

  const NoRelatedWorks := "No related works found."

  function RelatedText(papers: seq<PaperDict>): (r: string)
    ensures |papers| == 0 <==> r == NoRelatedWorks
  {
    if |papers| == 0 then NoRelatedWorks
    else
      var r := FormatPaperResults(papers);
      assert PaperLines(papers)[0][0] == '0';
      assert r[0] == '0';
      r
  }

  /** `_get_related_works`: a cached query is answered from the cache
      without searching; otherwise the searcher's result is stored under
      the query. A searcher that raises leaves the cache as it was and the
      exception propagates. */
  function GetRelatedWorks(cache: Cache, query: string, search: string -> Result<seq<PaperDict>, Exception>): (r: Lookup)
    ensures r.searched <==> query !in cache
    ensures query in cache ==> r.cache == cache && r.text == Success(RelatedText(cache[query]))
    ensures query !in cache && search(query).Failure? ==>
      r.cache == cache && r.text == Failure(search(query).error)
    ensures query !in cache && search(query).Success? ==>
      r.cache == cache[query := search(query).value] && r.text == Success(RelatedText(search(query).value))
    ensures r.text.Success? <==> query in r.cache
    ensures forall q :: q in cache ==> q in r.cache && r.cache[q] == cache[q]
    ensures r.text.Success? ==> r.text.value == RelatedText(r.cache[query])
    ensures r.text.Success? ==> (r.text.value == NoRelatedWorks <==> |r.cache[query]| == 0)
  {
    if query in cache then Lookup(Success(RelatedText(cache[query])), cache, false)
    else
      match search(query)
      case Failure(e) => Lookup(Failure(e), cache, true)
      case Success(papers) => Lookup(Success(RelatedText(papers)), cache[query := papers], true)
  }

  /** Asking again for the same query after an answer gives the same text
      without a search, whatever the searcher would now return; after a
      raise the query is still uncached and the searcher runs again. */
  lemma RepeatedQueryServedFromCache(cache: Cache, query: string,
                                     search: string -> Result<seq<PaperDict>, Exception>,
                                     later: string -> Result<seq<PaperDict>, Exception>)
    ensures var first := GetRelatedWorks(cache, query, search);
      var second := GetRelatedWorks(first.cache, query, later);
      && (first.text.Success? ==> !second.searched && second.text == first.text && second.cache == first.cache)
      && (first.text.Failure? ==> second.searched && second == GetRelatedWorks(cache, query, later))
  {
  }
}
