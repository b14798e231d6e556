/** `DrawerTool._extract_diagram`: turning a model's reply into a summary
    and a cleaned SVG, plus the brace escaping applied to the few-shot
    samples when the drawer is built. */
module Diagram {
  import opened Wrappers
  import opened Strings
  import opened PyValues
  import SvgClean

  // ---------------------------------------------------------------------
  // The `<svg.*?</svg>` block (DOTALL)
  // ---------------------------------------------------------------------

  /** `re.search(r"<svg.*?</svg>", s, re.DOTALL)`: the leftmost `<svg`
      followed, anywhere later, by `</svg>`; the lazy `.*?` ends the match
      at the first such `</svg>`. Returns the match's start and end. */
  function FindBlock(s: string): (r: Option<(nat, nat)>)
    ensures r.Some? ==> r.value.0 + 10 <= r.value.1 <= |s|
    ensures r.Some? ==> SubstrAt(s, r.value.0, "<svg") && SubstrAt(s, r.value.1 - 6, "</svg>")
    ensures r.Some? ==> forall k :: 0 <= k < r.value.0 ==> !SubstrAt(s, k, "<svg")
    ensures r.Some? ==> forall k :: r.value.0 + 4 <= k < r.value.1 - 6 ==> !SubstrAt(s, k, "</svg>")
  {
    match IndexFrom(s, "<svg", 0)
    case None => None
    case Some(i) =>
      match IndexFrom(s, "</svg>", i + 4)
      case None => None
      case Some(j) => Some((i, j + 6))
  }

  /** A block exists exactly when some `<svg` has a `</svg>` after it. */
  lemma FindBlockExists(s: string, i: nat, j: nat)
    requires SubstrAt(s, i, "<svg") && i + 4 <= j && SubstrAt(s, j, "</svg>")
    ensures FindBlock(s).Some?
  {
    var open := IndexFrom(s, "<svg", 0);
    assert open.Some?;
    assert IndexFrom(s, "</svg>", open.value + 4).Some?;
  }

  lemma FindBlockNone(s: string, i: nat, j: nat)
    requires FindBlock(s).None?
    requires SubstrAt(s, i, "<svg") && i + 4 <= j
    ensures !SubstrAt(s, j, "</svg>")
  {
    if SubstrAt(s, j, "</svg>") {
      FindBlockExists(s, i, j);
    }
  }

  /** `re.sub(r"<svg.*?</svg>", "", s, flags=re.DOTALL)`: every block, found
      left to right without overlap, is deleted. */
  function RemoveBlocks(s: string): (r: string)
    ensures |r| <= |s|
    ensures FindBlock(s).None? ==> r == s
    ensures FindBlock(s).Some? ==> |r| <= |s| - 10
    ensures FindBlock(s).Some? ==> s[..FindBlock(s).value.0] <= r
    decreases |s|
  {
    match FindBlock(s)
    case None => s
    case Some((a, b)) => s[..a] + RemoveBlocks(s[b..])
  }

  /** Text holding a single block loses exactly that block, and keeps the
      text before and after it. */
  lemma RemoveSingleBlock(s: string)
    requires FindBlock(s).Some?
    requires FindBlock(s[FindBlock(s).value.1..]).None?
    ensures var (a, b) := FindBlock(s).value;
      RemoveBlocks(s) == s[..a] + s[b..]
  {
  }

  /** Text is left untouched exactly when it holds no block. */
  lemma RemoveBlocksIdentity(s: string)
    ensures RemoveBlocks(s) == s <==> FindBlock(s).None?
  {
  }

  // ---------------------------------------------------------------------
  // Extraction
  // ---------------------------------------------------------------------

  /** The dictionary `_extract_diagram` returns. On the JSON path the
      summary is whatever value the reply held under "summary". */
  datatype Diagram = Diagram(summary: JsonValue, svg: string, fullResponse: string)

  /** The result when the candidate SVG fails the gate. */
  function Empty(response: string): Diagram {
    Diagram(JString(""), "", response)
  }

  /** `"<svg" in svg and "</svg>" in svg`, evaluated left to right with
      short-circuit: the second test only runs when the first holds. */
  function PassesGate(svg: JsonValue): (r: Result<bool, Exception>)
    ensures svg.JString? ==> r == Success(Contains(svg.s, "<svg") && Contains(svg.s, "</svg>"))
    ensures (svg.JNull? || svg.JBool? || svg.JNumber?) ==> r == Failure(TypeError)
  {
    var open :- In("<svg", svg);
    if !open then Success(false) else In("</svg>", svg)
  }

  /** The fallback candidate when the reply is not JSON: the first line of
      the stripped text with every block removed, and the leftmost block. */
  function Fallback(response: string): (r: (JsonValue, JsonValue))
    ensures r.0 == JString(FirstLine(Strip(RemoveBlocks(response))))
    ensures FindBlock(response).None? ==> r.1 == JString("")
    ensures FindBlock(response).Some? ==>
      var (a, b) := FindBlock(response).value;
      r.1 == JString(response[a..b])
  {
    var svg := match FindBlock(response)
      case Some((a, b)) => response[a..b]
      case None => "";
    (JString(FirstLine(Strip(RemoveBlocks(response)))), JString(svg))
  }

  /** The (summary, svg) candidate before the gate. A reply that decodes as
      JSON is indexed and may raise; it never falls back. */
  function Candidate(response: string, decoded: Option<JsonValue>): (r: Result<(JsonValue, JsonValue), Exception>)
    ensures decoded.None? ==> r == Success(Fallback(response))
    ensures decoded.Some? && !decoded.value.JObject? ==> r == Failure(TypeError)
    ensures decoded.Some? && decoded.value.JObject? ==>
      var m := decoded.value.fields;
      && ("summary" !in m || "svg" !in m ==> r == Failure(KeyError))
      && ("summary" in m && "svg" in m ==> r == Success((m["summary"], m["svg"])))
  {
    match decoded
    case None => Success(Fallback(response))
    case Some(parsed) =>
      var summary :- Index(parsed, "summary");
      var svg :- Index(parsed, "svg");
      Success((summary, svg))
  }

  /** A text candidate holding both tags. */
  predicate HasBothTags(svg: JsonValue) {
    svg.JString? && Contains(svg.s, "<svg") && Contains(svg.s, "</svg>")
  }

  /** `_extract_diagram`. The full reply is always kept; summary and svg are
      filled only when the candidate holds both tags, and then the svg is
      the cleaned candidate. A list or dictionary that passes the gate
      reaches `str.strip` and raises `AttributeError`. */
  function ExtractDiagram(response: string, decoded: Option<JsonValue>): (r: Result<Diagram, Exception>)
    ensures r.Success? ==> r.value.fullResponse == response
    ensures decoded.None? ==> r.Success?
    ensures Candidate(response, decoded).Failure? ==> r == Failure(Candidate(response, decoded).error)
    ensures Candidate(response, decoded).Success? ==>
      var (summary, svg) := Candidate(response, decoded).value;
      && (HasBothTags(svg) ==> r == Success(Diagram(summary, SvgClean.CleanSvg(svg.s), response)))
      && (svg.JString? && !HasBothTags(svg) ==> r == Success(Empty(response)))
    ensures r.Success? && r.value != Empty(response) ==>
      var svg := Candidate(response, decoded).value.1;
      HasBothTags(svg) && r.value.svg == SvgClean.CleanSvg(svg.s)
  {
    var (summary, svg) :- Candidate(response, decoded);
    var ok :- PassesGate(svg);
    if !ok then Success(Empty(response))
    else
      match svg
      case JString(t) => Success(Diagram(summary, SvgClean.CleanSvg(t), response))
      case _ => Failure(AttributeError)
  }

  /** The leftmost block holds both tags. */
  lemma BlockHasBothTags(s: string)
    requires FindBlock(s).Some?
    ensures var (a, b) := FindBlock(s).value; HasBothTags(JString(s[a..b]))
  {
    var (a, b) := FindBlock(s).value;
    var block := s[a..b];
    assert block[..4] == s[a..a + 4];
    assert SubstrAt(block, 0, "<svg");
    assert block[b - a - 6..] == s[b - 6..b];
    assert SubstrAt(block, b - a - 6, "</svg>");
  }

  /** On the fallback path the svg comes from the leftmost block. */
  lemma FallbackUsesLeftmostBlock(response: string)
    requires FindBlock(response).Some?
    ensures var (a, b) := FindBlock(response).value;
      ExtractDiagram(response, None)
        == Success(Diagram(JString(FirstLine(Strip(RemoveBlocks(response)))),
                           SvgClean.CleanSvg(response[a..b]), response))
  {
    BlockHasBothTags(response);
  }

  /** A reply that is neither JSON nor holds a block gives the empty result. */
  lemma FallbackWithoutBlock(response: string)
    requires FindBlock(response).None?
    ensures ExtractDiagram(response, None) == Success(Empty(response))
  {
    assert !HasBothTags(JString(""));
  }

  /** A list holding both tag strings passes the membership gate and then
      fails in the cleaning, which expects text. */
  lemma ListSvgRaises(response: string, summary: JsonValue)
    ensures var items := [JString("<svg"), JString("</svg>")];
      var m := map["summary" := summary, "svg" := JArray(items)];
      ExtractDiagram(response, Some(JObject(m))) == Failure(AttributeError)
  {
    var items := [JString("<svg"), JString("</svg>")];
    var m := map["summary" := summary, "svg" := JArray(items)];
    assert Candidate(response, Some(JObject(m))) == Success((summary, JArray(items)));
    assert items[0] == JString("<svg") && items[1] == JString("</svg>");
    assert PassesGate(JArray(items)) == Success(true);
  }

  /** A number under "svg" cannot be searched with `in`. */
  lemma NumberSvgRaises(response: string, summary: JsonValue, n: real)
    ensures var m := map["summary" := summary, "svg" := JNumber(n)];
      ExtractDiagram(response, Some(JObject(m))) == Failure(TypeError)
  {
    var m := map["summary" := summary, "svg" := JNumber(n)];
    assert Candidate(response, Some(JObject(m))) == Success((summary, JNumber(n)));
    assert PassesGate(JNumber(n)) == Failure(TypeError);
  }

  // ---------------------------------------------------------------------
  // Brace escaping of the few-shot samples
  // ---------------------------------------------------------------------

  function EscapeBrace(c: char): string {
    if c == '{' then "{{{}}" else if c == '}' then "{{}}}" else [c]
  }

  /** `re.sub(r"({|})", r"{{\1}}", text)`: each brace `b` becomes
      `{{` + b + `}}`. */
  function EscapeCurlyBraces(s: string): (r: string)
    ensures |r| >= |s|
    ensures '{' !in s && '}' !in s ==> r == s
    ensures '{' in s || '}' in s ==> |r| >= |s| + 4
    decreases |s|
  {
    if |s| == 0 then ""
    else
      assert '{' in s || '}' in s ==> s[0] == '{' || s[0] == '}' || '{' in s[1..] || '}' in s[1..];
      assert s == [s[0]] + s[1..];
      EscapeBrace(s[0]) + EscapeCurlyBraces(s[1..])
  }

  /** Reads each wrapped brace back as the brace itself. */
  function UnescapeCurlyBraces(s: string): string
    decreases |s|
  {
    if |s| == 0 then ""
    else if "{{{}}" <= s then "{" + UnescapeCurlyBraces(s[5..])
    else if "{{}}}" <= s then "}" + UnescapeCurlyBraces(s[5..])
    else [s[0]] + UnescapeCurlyBraces(s[1..])
  }

  lemma UnescapeOpen(t: string)
    ensures UnescapeCurlyBraces("{{{}}" + t) == "{" + UnescapeCurlyBraces(t)
  {
    assert ("{{{}}" + t)[..5] == "{{{}}";
    assert ("{{{}}" + t)[5..] == t;
  }

  lemma UnescapeClose(t: string)
    ensures UnescapeCurlyBraces("{{}}}" + t) == "}" + UnescapeCurlyBraces(t)
  {
    var w := "{{}}}" + t;
    assert w[..5] == "{{}}}";
    assert w[2] == '}';
    assert !("{{{}}" <= w);
    assert w[5..] == t;
  }

  lemma UnescapePlain(c: char, t: string)
    requires c != '{'
    ensures UnescapeCurlyBraces([c] + t) == [c] + UnescapeCurlyBraces(t)
  {
    assert ([c] + t)[0] == c;
    assert ([c] + t)[1..] == t;
  }

  /** The escaping is reversible: no two texts escape alike. */
  lemma {:induction false} UnescapeEscapeBraces(s: string)
    ensures UnescapeCurlyBraces(EscapeCurlyBraces(s)) == s
    decreases |s|
  {
    if |s| > 0 {
      var rest := EscapeCurlyBraces(s[1..]);
      UnescapeEscapeBraces(s[1..]);
      if s[0] == '{' {
        UnescapeOpen(rest);
      } else if s[0] == '}' {
        UnescapeClose(rest);
      } else {
        UnescapePlain(s[0], rest);
      }
      assert s == [s[0]] + s[1..];
    }
  }
}
