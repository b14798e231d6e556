/** The GitHub code-search query built from a research idea
    (`CodeSearchTool.format_github_repo_query` and the query selection at
    the start of `CodeSearchTool.run`).

    The noun phrases and nouns that spaCy extracts are an input here: the
    candidate terms in the order the source's set happens to yield them. */
module GithubQuery {
  import opened Wrappers
  import opened Strings
  import opened PyValues

  /** The fixed filter appended to every formatted query. */
  const Suffix: string := " in:file language:python"

  /** The regex class `\w`, restricted to ASCII: letters, digits and `_`. */
  predicate IsWordChar(c: char) {
    ('a' <= c <= 'z') || ('A' <= c <= 'Z') || ('0' <= c <= '9') || c == '_'
  }

  /** Characters that survive `re.sub(r"[^\w\s]", "", kw)`. */
  predicate IsKept(c: char) {
    IsWordChar(c) || IsSpace(c)
  }

  predicate IsCleanTerm(s: string) {
    forall i :: 0 <= i < |s| ==> IsKept(s[i])
  }

  /** `re.sub(r"[^\w\s]", "", kw)`: drops every character that is neither
      a word character nor whitespace, keeping the others in order. */
  function CleanTerm(kw: string): (r: string)
    ensures IsCleanTerm(r)
    ensures forall c :: c in r ==> c in kw
    ensures forall c :: c in kw && IsKept(c) ==> c in r
    ensures IsCleanTerm(kw) ==> r == kw
    decreases |kw|
  {
    if |kw| == 0 then ""
    else
      var rest := CleanTerm(kw[1..]);
      assert forall c :: c in kw ==> c == kw[0] || c in kw[1..];
      if IsKept(kw[0]) then [kw[0]] + rest else rest
  }

  /** Each candidate after cleaning, in candidate order. */
  function CleanAll(cands: seq<string>): (r: seq<string>)
    ensures |r| == |cands|
    ensures forall k :: 0 <= k < |cands| ==> r[k] == CleanTerm(cands[k])
  {
    seq(|cands|, k requires 0 <= k < |cands| => CleanTerm(cands[k]))
  }

  predicate NoDuplicates<T(==)>(xs: seq<T>) {
    forall i, j :: 0 <= i < j < |xs| ==> xs[i] != xs[j]
  }

  /** Reference definition of deduplication: every value once, at the
      position of its first occurrence. */
  function Distinct(xs: seq<string>): (r: seq<string>)
    ensures NoDuplicates(r)
    ensures forall x :: x in r <==> x in xs
    decreases |xs|
  {
    if |xs| == 0 then []
    else
      var init := xs[..|xs| - 1];
      var r := Distinct(init);
      assert forall x :: x in xs <==> x in init || x == xs[|xs| - 1];
      if xs[|xs| - 1] in r then r else r + [xs[|xs| - 1]]
  }

  /** Deduplicating a prefix gives a prefix of the deduplicated whole. */
  lemma {:induction false} DistinctPrefix(xs: seq<string>, i: nat)
    requires i <= |xs|
    ensures Distinct(xs[..i]) <= Distinct(xs)
    decreases |xs| - i
  {
    if i == |xs| {
      assert xs[..i] == xs;
    } else {
      DistinctPrefix(xs, i + 1);
      assert xs[..i + 1][..i] == xs[..i];
    }
  }

  /** Deduplicating one more element of a prefix adds it unless it was
      already seen, and stays a prefix of the deduplicated whole. */
  lemma DistinctStep(xs: seq<string>, i: nat)
    requires i < |xs|
    ensures var d := Distinct(xs[..i]);
      Distinct(xs[..i + 1]) == (if xs[i] in d then d else d + [xs[i]])
    ensures Distinct(xs[..i + 1]) <= Distinct(xs)
  {
    assert xs[..i + 1][..i] == xs[..i];
    DistinctPrefix(xs, i + 1);
  }

  /** The keyword loop from candidate `i` on, with `kws` the keywords kept so
      far (the source's `seen` set holds exactly the elements of `kws`). */
  function Collect(cands: seq<string>, i: nat, kws: seq<string>, maxTerms: int): (r: seq<string>)
    requires i <= |cands|
    requires kws == Distinct(CleanAll(cands)[..i])
    requires i == 0 || |kws| < maxTerms
    ensures r <= Distinct(CleanAll(cands))
    ensures |r| == Min(|Distinct(CleanAll(cands))|, Max(maxTerms, 1))
    decreases |cands| - i
  {
    var all := CleanAll(cands);
    if i == |cands| then
      assert all[..i] == all;
      kws
    else
      var cleaned := CleanTerm(cands[i]);
      var next := if cleaned in kws then kws else kws + [cleaned];
      assert cleaned == all[i];
      DistinctStep(all, i);
      if |next| >= maxTerms then next
      else Collect(cands, i + 1, next, maxTerms)
  }

  /** The keywords the source keeps: the first `max(maxTerms, 1)` distinct
      cleaned candidates (the loop checks its bound only after adding). */
  function Keywords(cands: seq<string>, maxTerms: int): (kws: seq<string>)
    ensures kws <= Distinct(CleanAll(cands))
    ensures |kws| == Min(|Distinct(CleanAll(cands))|, Max(maxTerms, 1))
  {
    assert CleanAll(cands)[..0] == [];
    Collect(cands, 0, [], maxTerms)
  }

  /** The keyword list keeps at most `maxTerms` terms (for `maxTerms >= 1`),
      pairwise distinct, each the cleaning of some candidate and free of
      characters other than word characters and whitespace; when it holds
      fewer than `maxTerms`, no cleaned candidate was left out. */
  lemma KeywordsProperties(cands: seq<string>, maxTerms: int)
    ensures var kws := Keywords(cands, maxTerms);
      && (maxTerms >= 1 ==> |kws| <= maxTerms)
      && NoDuplicates(kws)
      && (forall i :: 0 <= i < |kws| ==> kws[i] in CleanAll(cands) && IsCleanTerm(kws[i]))
      && (|kws| < maxTerms ==> forall k :: 0 <= k < |cands| ==> CleanTerm(cands[k]) in kws)
  {
    var kws := Keywords(cands, maxTerms);
    var all := CleanAll(cands);
    var d := Distinct(all);
    assert forall i :: 0 <= i < |kws| ==> kws[i] == d[i];
    forall i | 0 <= i < |kws|
      ensures kws[i] in all && IsCleanTerm(kws[i])
    {
      assert kws[i] in d;
      var k :| 0 <= k < |all| && all[k] == kws[i];
    }
    if |kws| < maxTerms {
      assert kws == d;
      forall k | 0 <= k < |cands|
        ensures CleanTerm(cands[k]) in kws
      {
        assert all[k] in all;
      }
    }
  }

  /** A keyword containing a space is wrapped in double quotes. */
  function Quote(kw: string): (r: string)
    ensures ' ' !in kw ==> r == kw
    ensures ' ' in kw ==> |r| == |kw| + 2 && r[0] == '"' && r[|r| - 1] == '"' && r[1..|r| - 1] == kw
  {
    if ' ' in kw then "\"" + kw + "\"" else kw
  }

  function QuoteAll(kws: seq<string>): (r: seq<string>)
    ensures |r| == |kws|
    ensures forall i :: 0 <= i < |kws| ==> r[i] == Quote(kws[i])
  {
    seq(|kws|, i requires 0 <= i < |kws| => Quote(kws[i]))
  }

  /** `f"{' '.join(quoted)} {suffix}"`: the query ends with a space and the
      suffix, and what comes before them is the joined keyword list. */
  function Assemble(quoted: seq<string>): (q: string)
    ensures EndsWith(q, " " + Suffix)
    ensures q[..|q| - |Suffix| - 1] == Join(" ", quoted)
  {
    var j := Join(" ", quoted);
    var tail := " " + Suffix;
    assert (j + tail)[|j + tail| - |tail|..] == tail;
    assert (j + tail)[..|j|] == j;
    j + tail
  }

  /** `format_github_repo_query` after the NLP step. `maxTerms / 2` is
      Python's `max_terms // 2`: Dafny's division rounds towards negative
      infinity for a positive divisor, as `//` does. */
  function FormatQuery(cands: seq<string>, maxTerms: int, maxQueryLength: int): (q: string)
    ensures EndsWith(q, " " + Suffix)
    ensures |Assemble(QuoteAll(Keywords(cands, maxTerms)))| <= maxQueryLength ==> |q| <= maxQueryLength
  {
    var quoted := QuoteAll(Keywords(cands, maxTerms));
    var full := Assemble(quoted);
    if |full| > maxQueryLength then
      Assemble(Take(quoted, maxTerms / 2))
    else
      full
  }

  /** Reads the keyword part of a query back into terms: terms are separated
      by single spaces and a term opening with `"` runs to the next `"`. */
  function ParseTerms(s: string): Option<seq<string>>
    decreases |s|
  {
    if |s| > 0 && s[0] == '"' then
      match IndexFrom(s, "\"", 1)
      case None => None
      case Some(k) =>
        var rest := s[k + 1..];
        if |rest| == 0 then Some([s[1..k]])
        else if rest[0] != ' ' then None
        else
          match ParseTerms(rest[1..])
          case None => None
          case Some(ts) => Some([s[1..k]] + ts)
    else
      match IndexFrom(s, " ", 0)
      case None => Some([s])
      case Some(k) =>
        match ParseTerms(s[k + 1..])
        case None => None
        case Some(ts) => Some([s[..k]] + ts)
  }

  /** The terms of a whole query: its keyword part, before the suffix. */
  function QueryTerms(q: string): Option<seq<string>> {
    if EndsWith(q, " " + Suffix) then ParseTerms(q[..|q| - |Suffix| - 1]) else None
  }

  /** The closing quote of a quoted keyword is the first `"` after the opening one. */
  lemma ClosingQuote(s: string, kw: string, rest: string)
    requires s == "\"" + kw + "\"" + rest
    requires '"' !in kw
    ensures IndexFrom(s, "\"", 1) == Some(|kw| + 1)
  {
    forall j | 1 <= j < |kw| + 1
      ensures !SubstrAt(s, j, "\"")
    {
      assert s[j] == kw[j - 1];
      assert s[j..j + 1] == [s[j]];
    }
    assert s[|kw| + 1..|kw| + 2] == "\"";
    IndexFromIs(s, "\"", 1, |kw| + 1);
  }

  /** No space inside an unquoted keyword. */
  lemma NoSpaceIn(s: string, kw: string, rest: string)
    requires s == kw + rest
    requires ' ' !in kw
    ensures forall j :: 0 <= j < |kw| ==> !SubstrAt(s, j, " ")
  {
    forall j | 0 <= j < |kw|
      ensures !SubstrAt(s, j, " ")
    {
      assert s[j] == kw[j];
      assert s[j..j + 1] == [s[j]];
    }
  }

  /** A quoted keyword followed by more terms. */
  lemma ParseHeadQuoted(kw: string, tail: string)
    requires '"' !in kw && ' ' in kw
    ensures ParseTerms("\"" + kw + "\"" + " " + tail) ==
      (match ParseTerms(tail) case None => None case Some(xs) => Some([kw] + xs))
  {
    var s := "\"" + kw + "\"" + " " + tail;
    assert s == "\"" + kw + "\"" + (" " + tail);
    ClosingQuote(s, kw, " " + tail);
    assert s[1..|kw| + 1] == kw;
    assert s[|kw| + 2..] == " " + tail;
    assert (" " + tail)[1..] == tail;
  }

  /** An unquoted keyword followed by more terms. */
  lemma ParseHeadPlain(kw: string, tail: string)
    requires '"' !in kw && ' ' !in kw
    ensures ParseTerms(kw + " " + tail) ==
      (match ParseTerms(tail) case None => None case Some(xs) => Some([kw] + xs))
  {
    var s := kw + " " + tail;
    assert s == kw + (" " + tail);
    NoSpaceIn(s, kw, " " + tail);
    assert s[|kw|..|kw| + 1] == " ";
    IndexFromIs(s, " ", 0, |kw|);
    assert s[..|kw|] == kw;
    assert s[|kw| + 1..] == tail;
    assert |kw| > 0 ==> s[0] == kw[0];
  }

  /** A single keyword parses as itself. */
  lemma ParseLast(kw: string)
    requires '"' !in kw
    ensures ParseTerms(Quote(kw)) == Some([kw])
  {
    var s := Quote(kw);
    if ' ' in kw {
      assert s == "\"" + kw + "\"" + "";
      ClosingQuote(s, kw, "");
      assert s[1..|kw| + 1] == kw;
    } else {
      assert s == kw + "";
      NoSpaceIn(s, kw, "");
      assert IndexFrom(s, " ", 0).None?;
      assert |kw| > 0 ==> s[0] == kw[0];
    }
  }

  /** Quoting makes the joined keyword list unambiguous: it parses back to
      exactly the keywords, including those that contain spaces. */
  lemma {:induction false} ParseJoinQuoted(kws: seq<string>)
    requires |kws| >= 1
    requires forall i :: 0 <= i < |kws| ==> '"' !in kws[i]
    ensures ParseTerms(Join(" ", QuoteAll(kws))) == Some(kws)
    decreases |kws|
  {
    if |kws| == 1 {
      ParseLast(kws[0]);
      assert Join(" ", QuoteAll(kws)) == Quote(kws[0]);
      assert kws == [kws[0]];
    } else {
      JoinQuotedCons(kws);
      ParseJoinQuoted(kws[1..]);
      ParseHead(kws[0], Join(" ", QuoteAll(kws[1..])));
      assert kws == [kws[0]] + kws[1..];
    }
  }

  /** The joined quoted list is the first quoted keyword, a space and the
      joined rest. */
  lemma JoinQuotedCons(kws: seq<string>)
    requires |kws| >= 2
    ensures Join(" ", QuoteAll(kws)) == Quote(kws[0]) + " " + Join(" ", QuoteAll(kws[1..]))
  {
    assert QuoteAll(kws[1..]) == QuoteAll(kws)[1..];
  }

  /** One keyword, quoted or not, parses off the front of a query. */
  lemma ParseHead(kw: string, tail: string)
    requires '"' !in kw
    ensures ParseTerms(Quote(kw) + " " + tail) ==
      (match ParseTerms(tail) case None => None case Some(xs) => Some([kw] + xs))
  {
    if ' ' in kw {
      ParseHeadQuoted(kw, tail);
    } else {
      ParseHeadPlain(kw, tail);
    }
  }

  /** A clean keyword contains no double quote. */
  lemma CleanHasNoQuote(kw: string)
    requires IsCleanTerm(kw)
    ensures '"' !in kw
  {
  }

  /** The keywords a formatted query uses: all of them when the first
      assembly fits, otherwise the first `maxTerms // 2`. */
  function UsedKeywords(cands: seq<string>, maxTerms: int, maxQueryLength: int): seq<string> {
    var kws := Keywords(cands, maxTerms);
    if |Assemble(QuoteAll(kws))| > maxQueryLength then Take(kws, maxTerms / 2) else kws
  }

  /** The query is the assembly of the used keywords. */
  lemma FormatQueryUses(cands: seq<string>, maxTerms: int, maxQueryLength: int)
    ensures FormatQuery(cands, maxTerms, maxQueryLength)
      == Assemble(QuoteAll(UsedKeywords(cands, maxTerms, maxQueryLength)))
  {
    var kws := Keywords(cands, maxTerms);
    var quoted := QuoteAll(kws);
    if |Assemble(quoted)| > maxQueryLength {
      assert Take(quoted, maxTerms / 2) == QuoteAll(Take(kws, maxTerms / 2));
    }
  }

  /** The used keywords are a prefix of the keyword list, and none holds a
      double quote. */
  lemma UsedKeywordsClean(cands: seq<string>, maxTerms: int, maxQueryLength: int)
    ensures var used := UsedKeywords(cands, maxTerms, maxQueryLength);
      && used <= Keywords(cands, maxTerms)
      && forall i :: 0 <= i < |used| ==> '"' !in used[i]
  {
    var kws := Keywords(cands, maxTerms);
    var used := UsedKeywords(cands, maxTerms, maxQueryLength);
    KeywordsProperties(cands, maxTerms);
    forall i | 0 <= i < |used|
      ensures '"' !in used[i]
    {
      assert used[i] == kws[i];
      CleanHasNoQuote(kws[i]);
    }
  }

  /** Reading an assembled query back parses its joined keyword part. */
  lemma QueryTermsAssemble(quoted: seq<string>)
    ensures QueryTerms(Assemble(quoted)) == ParseTerms(Join(" ", quoted))
  {
  }

  /** The formatted query reads back to the keywords it was built from: every
      keyword with a space survives as one quoted term. The fallback keeps a
      prefix of the keyword list, `maxTerms // 2` long when that many exist. */
  lemma FormatQueryRoundTrip(cands: seq<string>, maxTerms: int, maxQueryLength: int)
    ensures var used := UsedKeywords(cands, maxTerms, maxQueryLength);
      && used <= Keywords(cands, maxTerms)
      && (|used| >= 1 ==> QueryTerms(FormatQuery(cands, maxTerms, maxQueryLength)) == Some(used))
  {
    var used := UsedKeywords(cands, maxTerms, maxQueryLength);
    UsedKeywordsClean(cands, maxTerms, maxQueryLength);
    FormatQueryUses(cands, maxTerms, maxQueryLength);
    if |used| >= 1 {
      QueryTermsAssemble(QuoteAll(used));
      ParseJoinQuoted(used);
    }
  }

  /** The length limit is not a bound on the result: every query carries a
      space and the 24-character suffix, so a smaller limit is always
      exceeded, by the fallback as much as by the first assembly. */
  lemma LimitIsNotABound(cands: seq<string>, maxTerms: int, maxQueryLength: int)
    requires maxQueryLength <= |Suffix|
    ensures |FormatQuery(cands, maxTerms, maxQueryLength)| > maxQueryLength
  {
  }

  /** The limit is not a bound at the length `run` uses either: one clean
      keyword longer than 225 characters makes the query with 6 terms exceed
      250, because the fallback keeps `6 // 2` terms and so the same one. */
  lemma LongKeywordExceedsLimit(w: string)
    requires IsCleanTerm(w) && |w| > 250 - |Suffix| - 1
    ensures |FormatQuery([w], 6, 250)| > 250
  {
    assert CleanAll([w]) == [w];
    assert [w][..0] == [];
    assert Distinct([w]) == [w];
    var quoted := QuoteAll(Keywords([w], 6));
    assert quoted == [Quote(w)];
    assert Take(quoted, 3) == quoted;
    var q := Assemble(quoted);
    assert q[..|q| - |Suffix| - 1] == Quote(w);
  }

  /** With one space-free clean keyword, the query at 6 terms and 250
      characters is that keyword, a space and the suffix, whether or not it
      fits: so 225 characters give exactly 250, and 226 exceed the limit. */
  lemma SingleKeywordQueryLength(w: string)
    requires IsCleanTerm(w) && ' ' !in w
    ensures |FormatQuery([w], 6, 250)| == |w| + 1 + |Suffix|
  {
    assert CleanAll([w]) == [w];
    assert [w][..0] == [];
    assert Distinct([w]) == [w];
    var quoted := QuoteAll(Keywords([w], 6));
    assert quoted == [w];
    assert Take(quoted, 3) == quoted;
    var q := Assemble(quoted);
    assert q[..|q| - |Suffix| - 1] == w;
  }

  /** The idea test in `CodeSearchTool.run`: the query decodes to a JSON
      object with a `Title` or `Experiment` key. */
  predicate IsIdea(decoded: Option<JsonValue>) {
    decoded.Some? && decoded.value.JObject?
    && ("Title" in decoded.value.fields || "Experiment" in decoded.value.fields)
  }

  /** The query `CodeSearchTool.run` sends: an idea is replaced by its
      formatted query (6 terms, 250 characters); any other text, including
      text that is not JSON, is sent verbatim. */
  function ResolveCodeQuery(query: string, decoded: Option<JsonValue>, cands: seq<string>): (r: string)
    ensures !IsIdea(decoded) ==> r == query
    ensures IsIdea(decoded) ==> EndsWith(r, " " + Suffix) && r == FormatQuery(cands, 6, 250)
  {
    if IsIdea(decoded) then FormatQuery(cands, 6, 250) else query
  }
}
