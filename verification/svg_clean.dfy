/** `DrawerTool._clean_svg`: the sanitising pipeline applied to the SVG text
    a model returned. Each regular expression of the source is an explicit
    search here:
      1. strip surrounding whitespace;
      2. drop a leading "```" or "```svg" fence and a trailing "```" fence;
      3. replace every `&` by `&amp;`;
      4. remove the leftmost `<?xml ... ?>` that closes on its own line;
      5. drop the lines that are empty or whitespace only;
      6. strip again. */
module SvgClean {
  import opened Wrappers
  import opened Strings

  // ---------------------------------------------------------------------
  // Step 2: code fences
  // ---------------------------------------------------------------------

  /** `re.sub(r"^```(?:svg)?", "", s)`: the optional group is greedy, so
      "```svg" is dropped whole when present. */
  function DropOpeningFence(s: string): (r: string)
    ensures EndsWith(s, r)
    ensures !("```" <= s) ==> r == s
    ensures "```" <= s ==> |r| <= |s| - 3
  {
    if "```svg" <= s then s[6..]
    else if "```" <= s then s[3..]
    else s
  }

  /** A fence put in front of a body is exactly what is dropped. */
  lemma OpeningFenceRoundTrip(body: string)
    ensures DropOpeningFence("```svg" + body) == body
    ensures !("svg" <= body) ==> DropOpeningFence("```" + body) == body
  {
    assert ("```svg" + body)[..6] == "```svg";
    assert ("```svg" + body)[6..] == body;
    var t := "```" + body;
    assert t[..3] == "```" && t[3..] == body;
    if "```svg" <= t {
      assert body[..3] == t[3..6];
    }
  }

  /** `re.sub(r"```$", "", s)`: without MULTILINE, `$` matches at the very
      end and also just before a newline that ends the string. */
  function DropClosingFence(s: string): (r: string)
    ensures |r| <= |s|
    ensures EndsWith(s, "```") ==> r + "```" == s
    ensures !EndsWith(s, "```") && EndsWith(s, "```\n") ==> |r| >= 1 && r[..|r| - 1] + "```\n" == s && EndsWith(r, "\n")
    ensures !EndsWith(s, "```") && !EndsWith(s, "```\n") ==> r == s
  {
    if EndsWith(s, "```") then s[..|s| - 3]
    else if EndsWith(s, "```\n") then s[..|s| - 4] + "\n"
    else s
  }

  /** A fence put after a body, with or without a final newline, is exactly
      what is dropped; the newline stays. */
  lemma ClosingFenceRoundTrip(body: string)
    ensures DropClosingFence(body + "```") == body
    ensures DropClosingFence(body + "```\n") == body + "\n"
  {
    var t := body + "```";
    assert t[|t| - 3..] == "```" && t[..|t| - 3] == body;
    var u := body + "```\n";
    assert u[|u| - 1] == '\n';
    assert u[|u| - 4..] == "```\n" && u[..|u| - 4] == body;
  }

  // ---------------------------------------------------------------------
  // Step 3: ampersands
  // ---------------------------------------------------------------------

  /** Every `&` starts the entity `&amp;`. */
  predicate AmpEscaped(s: string) {
    forall i {:trigger AmpAt(s, i)} :: 0 <= i < |s| && s[i] == '&' ==> AmpAt(s, i)
  }

  /** The entity `&amp;` starts at index `i`. */
  predicate AmpAt(s: string, i: int) {
    SubstrAt(s, i, "&amp;")
  }

  /** The characters that follow `&` in `&amp;`. */
  predicate IsAmpTail(c: char) {
    c == 'a' || c == 'm' || c == 'p' || c == ';'
  }

  function EscapeChar(c: char): string {
    if c == '&' then "&amp;" else [c]
  }

  lemma AmpConcat(a: string, b: string)
    requires AmpEscaped(a) && AmpEscaped(b)
    ensures AmpEscaped(a + b)
  {
    forall i | 0 <= i < |a + b| && (a + b)[i] == '&'
      ensures AmpAt(a + b, i)
    {
      if i < |a| {
        assert AmpAt(a, i);
        assert (a + b)[i..i + 5] == a[i..i + 5];
      } else {
        assert b[i - |a|] == '&';
        assert AmpAt(b, i - |a|);
        assert (a + b)[i..i + 5] == b[i - |a|..i - |a| + 5];
      }
    }
  }

  lemma AmpSuffix(s: string, n: nat)
    requires AmpEscaped(s) && n <= |s|
    ensures AmpEscaped(s[n..])
  {
    forall i | 0 <= i < |s[n..]| && s[n..][i] == '&'
      ensures AmpAt(s[n..], i)
    {
      assert s[n + i] == '&';
      assert AmpAt(s, n + i);
      assert s[n..][i..i + 5] == s[n + i..n + i + 5];
    }
  }

  /** Cutting the text where no `&amp;` can be split keeps it escaped. */
  lemma AmpPrefix(s: string, n: nat)
    requires AmpEscaped(s) && n <= |s|
    requires n == |s| || !IsAmpTail(s[n])
    ensures AmpEscaped(s[..n])
  {
    forall i | 0 <= i < n && s[i] == '&'
      ensures AmpAt(s[..n], i)
    {
      assert AmpAt(s, i);
      forall m | i < m < i + 5
        ensures IsAmpTail(s[m])
      {
        assert s[m] == s[i..i + 5][m - i];
      }
      assert s[..n][i..i + 5] == s[i..i + 5];
    }
  }

  /** `s.replace("&", "&amp;")` */
  function EscapeAmp(s: string): (r: string)
    ensures AmpEscaped(r)
    ensures '&' in s ==> |r| >= |s| + 4
    ensures '&' !in s ==> r == s
    decreases |s|
  {
    if |s| == 0 then ""
    else
      var rest := EscapeAmp(s[1..]);
      assert "&amp;"[0..5] == "&amp;";
      assert AmpEscaped(EscapeChar(s[0]));
      AmpConcat(EscapeChar(s[0]), rest);
      assert '&' in s ==> s[0] == '&' || '&' in s[1..];
      assert '&' !in s ==> s == [s[0]] + s[1..];
      EscapeChar(s[0]) + rest
  }

  /** Reads `&amp;` back as `&`. */
  function UnescapeAmp(s: string): string
    decreases |s|
  {
    if |s| == 0 then ""
    else if "&amp;" <= s then "&" + UnescapeAmp(s[5..])
    else [s[0]] + UnescapeAmp(s[1..])
  }

  lemma UnescapeEntity(t: string)
    ensures UnescapeAmp("&amp;" + t) == "&" + UnescapeAmp(t)
  {
    assert "&amp;" <= "&amp;" + t;
    assert ("&amp;" + t)[5..] == t;
  }

  lemma UnescapeOther(c: char, t: string)
    requires c != '&'
    ensures UnescapeAmp([c] + t) == [c] + UnescapeAmp(t)
  {
    assert ([c] + t)[0] == c;
    assert ([c] + t)[1..] == t;
  }

  /** Escaping loses nothing: unescaping its output restores the input. */
  lemma {:induction false} UnescapeEscape(s: string)
    ensures UnescapeAmp(EscapeAmp(s)) == s
    decreases |s|
  {
    if |s| > 0 {
      var rest := EscapeAmp(s[1..]);
      UnescapeEscape(s[1..]);
      assert EscapeAmp(s) == EscapeChar(s[0]) + rest;
      if s[0] == '&' {
        UnescapeEntity(rest);
      } else {
        UnescapeOther(s[0], rest);
      }
      assert s == [s[0]] + s[1..];
    }
  }

  lemma EscapeConcat(a: string, b: string)
    ensures EscapeAmp(a + b) == EscapeAmp(a) + EscapeAmp(b)
    decreases |a|
  {
    if |a| > 0 {
      assert (a + b)[1..] == a[1..] + b;
      EscapeConcat(a[1..], b);
      ConcatAssoc(EscapeChar(a[0]), EscapeAmp(a[1..]), EscapeAmp(b));
    } else {
      assert a + b == b;
    }
  }

  // ---------------------------------------------------------------------
  // Step 4: the XML declaration
  // ---------------------------------------------------------------------

  /** No newline among `s[a..b]`. */
  predicate LineFree(s: string, a: int, b: int) {
    forall m :: a <= m < b && 0 <= m < |s| ==> s[m] != '\n'
  }

  /** The lazy `.*?\?>` of the declaration pattern, from index `j`: the first
      `?>` reached without crossing a newline (`.` does not match one). */
  function DeclClose(s: string, j: nat): (r: Option<nat>)
    ensures r.Some? ==> j <= r.value && SubstrAt(s, r.value, "?>") && LineFree(s, j, r.value)
    ensures r.Some? ==> forall k :: j <= k < r.value ==> !SubstrAt(s, k, "?>")
    decreases |s| - j
  {
    if j + 2 > |s| then None
    else if s[j] == '?' && s[j + 1] == '>' then
      assert s[j..j + 2] == "?>";
      Some(j)
    else if s[j] == '\n' then None
    else
      var r := DeclClose(s, j + 1);
      assert !SubstrAt(s, j, "?>") by {
        assert s[j..j + 2] == [s[j], s[j + 1]];
      }
      r
  }

  /** The search is complete: a `?>` reached from `j` without crossing a
      newline is found. */
  lemma {:induction false} DeclCloseComplete(s: string, j: nat, k: nat)
    requires j <= k && SubstrAt(s, k, "?>") && LineFree(s, j, k)
    ensures DeclClose(s, j).Some? && DeclClose(s, j).value <= k
    decreases k - j
  {
    assert s[k..k + 2] == "?>";
    if j < k && !(s[j] == '?' && s[j + 1] == '>') {
      assert s[j] != '\n';
      DeclCloseComplete(s, j + 1, k);
    }
  }

  /** A complete declaration starts at `i`. */
  predicate DeclAt(s: string, i: nat) {
    SubstrAt(s, i, "<?xml") && DeclClose(s, i + 5).Some?
  }

  /** `re.search(r"<\?xml.*?\?>", s)` from index `i`: the start and end of
      the leftmost match. */
  function FindDecl(s: string, i: nat): (r: Option<(nat, nat)>)
    ensures r.Some? ==> i <= r.value.0 && DeclAt(s, r.value.0)
    ensures r.Some? ==> r.value.1 == DeclClose(s, r.value.0 + 5).value + 2
    ensures r.Some? ==> forall k :: i <= k < r.value.0 ==> !DeclAt(s, k)
    ensures r.None? ==> forall k :: i <= k ==> !DeclAt(s, k)
    decreases |s| - i
  {
    if i + 5 > |s| then None
    else if DeclAt(s, i) then
      Some((i, DeclClose(s, i + 5).value + 2))
    else FindDecl(s, i + 1)
  }

  /** `re.sub(r"<\?xml.*?\?>", "", s, count=1)` */
  function RemoveFirstDecl(s: string): (r: string)
    ensures (forall k :: !DeclAt(s, k)) ==> r == s
    ensures (exists k :: DeclAt(s, k)) ==> |r| <= |s| - 7
    ensures FindDecl(s, 0).Some? ==>
      var (a, b) := FindDecl(s, 0).value;
      r == s[..a] + s[b..]
  {
    match FindDecl(s, 0)
    case None => s
    case Some((a, b)) =>
      var j := DeclClose(s, a + 5).value;
      assert a + 5 <= j && j + 2 <= |s|;
      s[..a] + s[b..]
  }

  /** A `<?xml` whose `?>` follows on the same line is always found, and
      cleaning removes at least the seven characters of `<?xml?>`. */
  lemma SameLineDeclRemoved(s: string, i: nat, k: nat)
    requires SubstrAt(s, i, "<?xml") && i + 5 <= k && SubstrAt(s, k, "?>") && LineFree(s, i + 5, k)
    ensures FindDecl(s, 0).Some? && FindDecl(s, 0).value.0 <= i
    ensures |RemoveFirstDecl(s)| <= |s| - 7
  {
    DeclCloseComplete(s, i + 5, k);
    assert DeclAt(s, i);
  }


  /** A declaration needs the two characters `<?` in a row. */
  predicate NoProcessingInstruction(s: string) {
    forall i :: 0 <= i < |s| ==> !SubstrAt(s, i, "<?")
  }

  lemma DeclNeedsPair(s: string, i: nat)
    requires DeclAt(s, i)
    ensures SubstrAt(s, i, "<?")
  {
    assert s[i..i + 2] == s[i..i + 5][..2];
  }

  /** Removing a declaration keeps every remaining `&` escaped. */
  lemma RemoveDeclAmp(s: string)
    requires AmpEscaped(s)
    ensures AmpEscaped(RemoveFirstDecl(s))
  {
    match FindDecl(s, 0)
    case None =>
    case Some((a, b)) =>
      var j := DeclClose(s, a + 5).value;
      assert s[a] == s[a..a + 5][0];
      AmpPrefix(s, a);
      AmpSuffix(s, b);
      AmpConcat(s[..a], s[b..]);
  }

  // ---------------------------------------------------------------------
  // Step 5: lines
  // ---------------------------------------------------------------------

  /** The pieces between line boundaries: `str.splitlines()` except that a
      "\r\n" pair yields an extra empty piece and a final boundary yields
      a final empty piece. Only the non-blank pieces are used, so the
      difference never shows. */
  function Segments(s: string): (r: seq<string>)
    ensures |r| >= 1
    ensures forall k :: 0 <= k < |r| ==> HasNoLineBreak(r[k])
    decreases |s|
  {
    if |s| == 0 then [""]
    else
      var rest := Segments(s[1..]);
      if IsLineBreak(s[0]) then [""] + rest
      else [[s[0]] + rest[0]] + rest[1..]
  }

  /** `[line for line in lines if line.strip()]` */
  function KeepNonBlank(lines: seq<string>): (r: seq<string>)
    ensures forall k :: 0 <= k < |r| ==> !IsBlank(r[k]) && r[k] in lines
    ensures forall l :: l in lines && !IsBlank(l) ==> l in r
    ensures (forall k :: 0 <= k < |lines| ==> !IsBlank(lines[k])) ==> r == lines
    decreases |lines|
  {
    if |lines| == 0 then []
    else
      var rest := KeepNonBlank(lines[1..]);
      assert forall l :: l in lines ==> l == lines[0] || l in lines[1..];
      if IsBlank(lines[0]) then rest
      else
        assert (forall k :: 0 <= k < |lines| ==> !IsBlank(lines[k])) ==> lines == [lines[0]] + lines[1..];
        [lines[0]] + rest
  }

  /** Line boundaries other than "\n" do not occur. */
  predicate OnlyNewlineBreaks(s: string) {
    forall i :: 0 <= i < |s| && IsLineBreak(s[i]) ==> s[i] == '\n'
  }

  /** Every line of the text has a character other than whitespace. */
  predicate NoBlankLines(s: string) {
    var lines := Segments(s);
    forall k :: 0 <= k < |lines| ==> !IsBlank(lines[k])
  }

  lemma SegmentsNewline(t: string)
    ensures Segments("\n" + t) == [""] + Segments(t)
  {
    assert ("\n" + t)[1..] == t;
  }

  /** A line-free prefix extends the first segment. */
  lemma {:induction false} SegmentsConcat(x: string, t: string)
    requires HasNoLineBreak(x)
    ensures Segments(x + t) == [x + Segments(t)[0]] + Segments(t)[1..]
    decreases |x|
  {
    if |x| == 0 {
      assert x + t == t;
      assert x + Segments(t)[0] == Segments(t)[0];
      assert Segments(t) == [Segments(t)[0]] + Segments(t)[1..];
    } else {
      assert (x + t)[1..] == x[1..] + t;
      assert (x + t)[0] == x[0];
      SegmentsConcat(x[1..], t);
      assert [x[0]] + (x[1..] + Segments(t)[0]) == x + Segments(t)[0];
    }
  }

  lemma JoinCons(sep: string, x: string, xs: seq<string>)
    requires |xs| >= 1
    ensures Join(sep, [x] + xs) == x + sep + Join(sep, xs)
  {
    assert ([x] + xs)[1..] == xs;
  }

  /** Splitting the newline-joined lines at line boundaries gives them back. */
  lemma {:induction false} SegmentsJoin(xs: seq<string>)
    requires |xs| >= 1
    requires forall k :: 0 <= k < |xs| ==> HasNoLineBreak(xs[k])
    ensures Segments(Join("\n", xs)) == xs
    decreases |xs|
  {
    if |xs| == 1 {
      SegmentsConcat(xs[0], "");
      assert xs[0] + "" == xs[0];
      assert xs == [xs[0]];
    } else {
      var tail := Join("\n", xs[1..]);
      JoinCons("\n", xs[0], xs[1..]);
      assert xs == [xs[0]] + xs[1..];
      assert Join("\n", xs) == xs[0] + ("\n" + tail);
      SegmentsConcat(xs[0], "\n" + tail);
      SegmentsNewline(tail);
      SegmentsJoin(xs[1..]);
      assert xs[0] + "" == xs[0];
    }
  }

  lemma JoinHeadCons(sep: string, c: char, y: string, ys: seq<string>)
    ensures Join(sep, [[c] + y] + ys) == [c] + Join(sep, [y] + ys)
  {
    if |ys| > 0 {
      JoinCons(sep, [c] + y, ys);
      JoinCons(sep, y, ys);
    }
  }

  /** Joining the segments of a text whose only boundaries are newlines
      gives the text back. */
  lemma {:induction false} JoinSegments(s: string)
    requires OnlyNewlineBreaks(s)
    ensures Join("\n", Segments(s)) == s
    decreases |s|
  {
    if |s| > 0 {
      var rest := Segments(s[1..]);
      JoinSegments(s[1..]);
      if IsLineBreak(s[0]) {
        JoinCons("\n", "", rest);
        assert s == "\n" + s[1..];
      } else {
        JoinHeadCons("\n", s[0], rest[0], rest[1..]);
        assert rest == [rest[0]] + rest[1..];
        assert s == [s[0]] + s[1..];
      }
    }
  }

  lemma SegmentHead(t: string, n: nat)
    requires n <= |t| && HasNoLineBreak(t[..n])
    ensures |Segments(t)[0]| >= n && Segments(t)[0][..n] == t[..n]
    decreases n
  {
    if n > 0 {
      assert t[..n][0] == t[0];
      assert t[1..][..n - 1] == t[..n][1..];
      SegmentHead(t[1..], n - 1);
      assert t[..n] == [t[0]] + t[1..][..n - 1];
    }
  }

  /** Splitting into lines keeps every `&amp;` whole. */
  lemma {:induction false} SegmentsAmp(s: string)
    requires AmpEscaped(s)
    ensures forall k :: 0 <= k < |Segments(s)| ==> AmpEscaped(Segments(s)[k])
    decreases |s|
  {
    if |s| > 0 {
      var rest := Segments(s[1..]);
      AmpSuffix(s, 1);
      SegmentsAmp(s[1..]);
      if !IsLineBreak(s[0]) {
        var first := [s[0]] + rest[0];
        if s[0] == '&' {
          assert AmpAt(s, 0);
          assert s[1..][..4] == "amp;";
          SegmentHead(s[1..], 4);
          forall i | 0 <= i < |first| && first[i] == '&'
            ensures AmpAt(first, i)
          {
            if i == 0 {
              assert |rest[0]| >= 4 && rest[0][..4] == "amp;";
              assert first[..5] == [s[0]] + rest[0][..4];
            } else {
              assert rest[0][i - 1] == '&';
              assert AmpAt(rest[0], i - 1);
              assert first[i..i + 5] == rest[0][i - 1..i + 4];
            }
          }
        } else {
          AmpConcat([s[0]], rest[0]);
        }
      }
    }
  }

  lemma {:induction false} AmpJoin(xs: seq<string>)
    requires forall k :: 0 <= k < |xs| ==> AmpEscaped(xs[k])
    ensures AmpEscaped(Join("\n", xs))
    decreases |xs|
  {
    if |xs| == 1 {
      assert AmpEscaped(xs[0]);
    } else if |xs| > 1 {
      var tail := xs[1..];
      assert forall k :: 0 <= k < |tail| ==> tail[k] == xs[k + 1];
      AmpJoin(tail);
      assert AmpEscaped(xs[0]);
      AmpConcat(xs[0], "\n");
      AmpConcat(xs[0] + "\n", Join("\n", tail));
    }
  }

  // ---------------------------------------------------------------------
  // Step 6: the final strip
  // ---------------------------------------------------------------------

  lemma NonBlankWitness(s: string) returns (i: nat)
    requires !IsBlank(s)
    ensures i < |s| && !IsSpace(s[i])
  {
    i :| 0 <= i < |s| && !IsSpace(s[i]);
  }

  lemma {:induction false} LStripConcat(a: string, b: string)
    requires !IsBlank(a)
    ensures LStrip(a + b) == LStrip(a) + b
    decreases |a|
  {
    var i := NonBlankWitness(a);
    if IsSpace(a[0]) {
      assert a[1..][i - 1] == a[i];
      assert (a + b)[1..] == a[1..] + b;
      LStripConcat(a[1..], b);
    }
  }

  lemma {:induction false} RStripConcat(a: string, b: string)
    requires !IsBlank(b)
    ensures RStrip(a + b) == a + RStrip(b)
    decreases |b|
  {
    var i := NonBlankWitness(b);
    if IsSpace(b[|b| - 1]) {
      assert b[..|b| - 1][i] == b[i];
      assert (a + b)[..|a + b| - 1] == a + b[..|b| - 1];
      RStripConcat(a, b[..|b| - 1]);
    }
  }

  /** A line the cleaning keeps: it has content and no line boundary. */
  predicate IsKeptLine(l: string) {
    !IsBlank(l) && HasNoLineBreak(l)
  }

  lemma SuffixNoBreak(l: string, p: nat)
    requires HasNoLineBreak(l) && p <= |l|
    ensures HasNoLineBreak(l[p..])
  {
    assert forall j :: 0 <= j < |l| - p ==> l[p..][j] == l[p + j];
  }

  lemma PrefixNoBreak(l: string, p: nat)
    requires HasNoLineBreak(l) && p <= |l|
    ensures HasNoLineBreak(l[..p])
  {
    assert forall j :: 0 <= j < p ==> l[..p][j] == l[j];
  }

  lemma LStripKeepsLine(l: string)
    requires IsKeptLine(l)
    ensures IsKeptLine(LStrip(l))
  {
    var a := LStrip(l);
    assert l[..|l|] == l;
    assert |a| > 0 && !IsSpace(a[0]);
    SuffixNoBreak(l, |l| - |a|);
  }

  lemma RStripKeepsLine(l: string)
    requires IsKeptLine(l)
    ensures IsKeptLine(RStrip(l))
  {
    var b := RStrip(l);
    assert l[0..] == l;
    assert |b| > 0 && !IsSpace(b[|b| - 1]);
    PrefixNoBreak(l, |b|);
  }

  predicate AllKeptLines(ls: seq<string>) {
    forall k :: 0 <= k < |ls| ==> IsKeptLine(ls[k])
  }

  lemma {:induction false} JoinSnoc(sep: string, xs: seq<string>, y: string)
    requires |xs| >= 1
    ensures Join(sep, xs + [y]) == Join(sep, xs) + sep + y
    decreases |xs|
  {
    if |xs| == 1 {
      assert xs + [y] == [xs[0]] + [y];
    } else {
      assert (xs + [y])[1..] == xs[1..] + [y];
      JoinSnoc(sep, xs[1..], y);
    }
  }

  /** The lines with the first one left-stripped and the last one right-stripped. */
  function TrimEnds(ls: seq<string>): (r: seq<string>)
    requires |ls| >= 1
  {
    if |ls| == 1 then [RStrip(LStrip(ls[0]))]
    else [LStrip(ls[0])] + ls[1..|ls| - 1] + [RStrip(ls[|ls| - 1])]
  }

  /** Left-stripping text that starts with a non-blank piece only strips
      that piece. */
  lemma LStripConcat3(a: string, b: string, c: string)
    requires !IsBlank(a)
    ensures LStrip(a + b + c) == LStrip(a) + b + c
  {
    var i := NonBlankWitness(a);
    LStripConcat(a, b);
    assert (a + b)[i] == a[i];
    LStripConcat(a + b, c);
  }

  /** Left-stripping the joined text only strips the first line. */
  lemma LStripJoin(first: string, more: seq<string>)
    requires IsKeptLine(first) && |more| >= 1
    ensures LStrip(Join("\n", [first] + more)) == Join("\n", [LStrip(first)] + more)
  {
    JoinCons("\n", first, more);
    JoinCons("\n", LStrip(first), more);
    LStripConcat3(first, "\n", Join("\n", more));
  }

  /** Right-stripping the joined text only strips the last line. */
  lemma RStripJoin(init: seq<string>, last: string)
    requires IsKeptLine(last) && |init| >= 1
    ensures RStrip(Join("\n", init + [last])) == Join("\n", init + [RStrip(last)])
  {
    JoinSnoc("\n", init, last);
    JoinSnoc("\n", init, RStrip(last));
    RStripConcat(Join("\n", init) + "\n", last);
  }

  lemma StripIsBoth(s: string)
    ensures Strip(s) == RStrip(LStrip(s))
  {
  }

  /** Kept lines around kept lines are all kept. */
  lemma KeptFrame(a: string, mid: seq<string>, b: string)
    requires IsKeptLine(a) && IsKeptLine(b) && AllKeptLines(mid)
    ensures AllKeptLines([a] + mid + [b])
  {
    var t := [a] + mid + [b];
    forall k | 0 <= k < |t|
      ensures IsKeptLine(t[k])
    {
      if 0 < k < |t| - 1 {
        assert t[k] == mid[k - 1];
      }
    }
  }

  lemma MiddleKept(ls: seq<string>)
    requires |ls| >= 2 && AllKeptLines(ls)
    ensures AllKeptLines(ls[1..|ls| - 1])
  {
    var mid := ls[1..|ls| - 1];
    forall k | 0 <= k < |mid|
      ensures IsKeptLine(mid[k])
    {
      assert mid[k] == ls[k + 1];
    }
  }

  /** Trimming the ends keeps every line a kept line. */
  lemma TrimEndsKept(ls: seq<string>)
    requires |ls| >= 1 && AllKeptLines(ls)
    ensures |TrimEnds(ls)| == |ls| && AllKeptLines(TrimEnds(ls))
  {
    var n := |ls|;
    var first := ls[0];
    var last := ls[n - 1];
    assert IsKeptLine(first) && IsKeptLine(last);
    if n == 1 {
      LStripKeepsLine(first);
      RStripKeepsLine(LStrip(first));
      var t := RStrip(LStrip(first));
      assert TrimEnds(ls) == [t];
      assert AllKeptLines([t]) by {
        assert [t][0] == t;
      }
    } else {
      LStripKeepsLine(first);
      RStripKeepsLine(last);
      MiddleKept(ls);
      KeptFrame(LStrip(first), ls[1..n - 1], RStrip(last));
    }
  }

  /** With several lines, the final strip trims the first line's start and
      the last line's end. */
  lemma StripJoinMany(ls: seq<string>)
    requires |ls| >= 2 && IsKeptLine(ls[0]) && IsKeptLine(ls[|ls| - 1])
    ensures Strip(Join("\n", ls)) == Join("\n", TrimEnds(ls))
  {
    var n := |ls|;
    var first := ls[0];
    var more := ls[1..];
    var init := [LStrip(first)] + ls[1..n - 1];
    var last := ls[n - 1];
    var l := LStrip(Join("\n", ls));
    HeadTail(ls);
    assert l == Join("\n", [LStrip(first)] + more) by {
      LStripJoin(first, more);
    }
    ConsSnoc(LStrip(first), more);
    TailInit(ls);
    assert RStrip(l) == Join("\n", init + [RStrip(last)]) by {
      LStripKeepsLine(first);
      RStripJoin(init, last);
    }
    assert init + [RStrip(last)] == TrimEnds(ls);
    StripIsBoth(Join("\n", ls));
  }

  /** The final strip only trims the first and last kept line. */
  lemma StripJoin(ls: seq<string>)
    requires |ls| >= 1 && AllKeptLines(ls)
    ensures Strip(Join("\n", ls)) == Join("\n", TrimEnds(ls))
    ensures |TrimEnds(ls)| == |ls| && AllKeptLines(TrimEnds(ls))
  {
    TrimEndsKept(ls);
    if |ls| >= 2 {
      assert IsKeptLine(ls[0]) && IsKeptLine(ls[|ls| - 1]);
      StripJoinMany(ls);
    }
  }

  lemma NewlineConcat(a: string, b: string)
    requires OnlyNewlineBreaks(a) && OnlyNewlineBreaks(b)
    ensures OnlyNewlineBreaks(a + b)
  {
    forall i | 0 <= i < |a + b| && IsLineBreak((a + b)[i])
      ensures (a + b)[i] == '\n'
    {
      if i < |a| {
        assert (a + b)[i] == a[i];
      } else {
        assert (a + b)[i] == b[i - |a|];
      }
    }
  }

  lemma {:induction false} OnlyNewlineJoin(xs: seq<string>)
    requires forall k :: 0 <= k < |xs| ==> HasNoLineBreak(xs[k])
    ensures OnlyNewlineBreaks(Join("\n", xs))
    decreases |xs|
  {
    if |xs| == 1 {
      assert HasNoLineBreak(xs[0]);
    } else if |xs| > 1 {
      var tail := xs[1..];
      assert forall k :: 0 <= k < |tail| ==> tail[k] == xs[k + 1];
      OnlyNewlineJoin(tail);
      assert HasNoLineBreak(xs[0]);
      NewlineConcat(xs[0], "\n");
      NewlineConcat(xs[0] + "\n", Join("\n", tail));
    }
  }

  /** Kept lines joined by newlines form text whose lines are exactly those. */
  lemma JoinKeptLines(t: seq<string>)
    requires |t| >= 1 && AllKeptLines(t)
    ensures OnlyNewlineBreaks(Join("\n", t)) && NoBlankLines(Join("\n", t))
  {
    assert forall k :: 0 <= k < |t| ==> HasNoLineBreak(t[k]);
    SegmentsJoin(t);
    OnlyNewlineJoin(t);
  }

  /** Strip of text whose kept lines are newline-joined keeps those lines clean. */
  lemma StripLines(ls: seq<string>)
    requires AllKeptLines(ls)
    ensures OnlyNewlineBreaks(Strip(Join("\n", ls)))
    ensures |ls| > 0 ==> NoBlankLines(Strip(Join("\n", ls)))
    ensures |ls| == 0 ==> Strip(Join("\n", ls)) == ""
  {
    if |ls| > 0 {
      StripJoin(ls);
      JoinKeptLines(TrimEnds(ls));
    }
  }

  lemma AmpLStrip(x: string)
    requires AmpEscaped(x)
    ensures AmpEscaped(LStrip(x))
  {
    AmpSuffix(x, |x| - |LStrip(x)|);
  }

  lemma AmpRStrip(l: string)
    requires AmpEscaped(l)
    ensures AmpEscaped(RStrip(l))
  {
    var r := RStrip(l);
    if |r| < |l| {
      assert IsSpace(l[|r|..][0]);
      assert l[|r|] == l[|r|..][0];
    }
    AmpPrefix(l, |r|);
  }

  /** Stripping never cuts an `&amp;` apart. */
  lemma AmpStrip(x: string)
    requires AmpEscaped(x)
    ensures AmpEscaped(Strip(x))
  {
    AmpLStrip(x);
    AmpRStrip(LStrip(x));
  }

  // ---------------------------------------------------------------------
  // The pipeline
  // ---------------------------------------------------------------------

  /** `_clean_svg`. Its output has no surrounding whitespace, no line that is
      empty or whitespace only, no line boundary other than "\n", and every
      `&` in it begins `&amp;`. */
  function CleanSvg(svg: string): (r: string)
    ensures IsTrimmed(r)
    ensures OnlyNewlineBreaks(r)
    ensures r == "" || NoBlankLines(r)
    ensures AmpEscaped(r)
  {
    var escaped := EscapeAmp(DropClosingFence(DropOpeningFence(Strip(svg))));
    CleanEscapedShape(escaped);
    Strip(Join("\n", KeepNonBlank(Segments(RemoveFirstDecl(escaped)))))
  }

  /** The steps after escaping keep every `&` escaped and leave trimmed
      text with one non-blank line per newline. */
  lemma CleanEscapedShape(escaped: string)
    requires AmpEscaped(escaped)
    ensures var r := Strip(Join("\n", KeepNonBlank(Segments(RemoveFirstDecl(escaped)))));
      && IsTrimmed(r) && OnlyNewlineBreaks(r) && (r == "" || NoBlankLines(r)) && AmpEscaped(r)
  {
    var noDecl := RemoveFirstDecl(escaped);
    var lines := KeepNonBlank(Segments(noDecl));
    RemoveDeclAmp(escaped);
    SegmentsAmp(noDecl);
    AmpJoin(lines);
    AmpStrip(Join("\n", lines));
    StripLines(lines);
  }

  // ---------------------------------------------------------------------
  // A second pass
  // ---------------------------------------------------------------------

  /** Text the pipeline leaves alone apart from escaping: trimmed, only
      newline boundaries, no blank line, no code fence at either end and no
      `<?` that could open a declaration. */
  predicate CleanForm(s: string) {
    && IsTrimmed(s)
    && OnlyNewlineBreaks(s)
    && (s == "" || NoBlankLines(s))
    && !("```" <= s)
    && !EndsWith(s, "```")
    && NoProcessingInstruction(s)
  }

  function EscapeEach(ls: seq<string>): (r: seq<string>)
    ensures |r| == |ls|
    ensures forall k :: 0 <= k < |ls| ==> r[k] == EscapeAmp(ls[k])
  {
    seq(|ls|, k requires 0 <= k < |ls| => EscapeAmp(ls[k]))
  }

  /** The lines of the escaped text are the escaped lines. */
  lemma EscapeEachCons(x: string, xs: seq<string>)
    ensures EscapeEach([x] + xs) == [EscapeAmp(x)] + EscapeEach(xs)
  {
  }

  lemma EscapeEachTail(xs: seq<string>)
    requires |xs| >= 1
    ensures EscapeEach(xs)[1..] == EscapeEach(xs[1..])
  {
  }

  lemma EscapeCons(c: char, t: string)
    ensures EscapeAmp([c] + t) == EscapeChar(c) + EscapeAmp(t)
  {
    assert ([c] + t)[1..] == t;
  }

  lemma {:induction false} SegmentsEscape(s: string)
    ensures Segments(EscapeAmp(s)) == EscapeEach(Segments(s))
    decreases |s|
  {
    if |s| > 0 {
      var rest := Segments(s[1..]);
      var e := EscapeAmp(s[1..]);
      SegmentsEscape(s[1..]);
      HeadTail(s);
      EscapeCons(s[0], s[1..]);
      if IsLineBreak(s[0]) {
        assert EscapeChar(s[0]) == [s[0]];
        assert ([s[0]] + e)[1..] == e;
        EscapeEachCons("", rest);
      } else {
        var c := EscapeChar(s[0]);
        assert HasNoLineBreak(c);
        SegmentsConcat(c, e);
        EscapeCons(s[0], rest[0]);
        EscapeEachCons([s[0]] + rest[0], rest[1..]);
        EscapeEachTail(rest);
      }
    }
  }

  lemma {:induction false} EscapeNonBlank(l: string)
    requires !IsBlank(l)
    ensures !IsBlank(EscapeAmp(l))
    decreases |l|
  {
    var i := NonBlankWitness(l);
    if !IsSpace(l[0]) {
      EscapeHead(l);
      var e := EscapeAmp(l);
      assert !IsSpace(e[0]);
    } else {
      assert l[1..][i - 1] == l[i];
      EscapeNonBlank(l[1..]);
      var e := EscapeAmp(l[1..]);
      var j := NonBlankWitness(e);
      var c := EscapeChar(l[0]);
      assert EscapeAmp(l) == c + e;
      assert (c + e)[|c| + j] == e[j];
    }
  }

  lemma EscapeOnlyNewline(s: string)
    requires OnlyNewlineBreaks(s)
    ensures OnlyNewlineBreaks(EscapeAmp(s))
    decreases |s|
  {
    if |s| > 0 {
      EscapeOnlyNewline(s[1..]);
      var c := EscapeChar(s[0]);
      var e := EscapeAmp(s[1..]);
      forall i | 0 <= i < |c + e| && IsLineBreak((c + e)[i])
        ensures (c + e)[i] == '\n'
      {
        if i >= |c| {
          assert (c + e)[i] == e[i - |c|];
        }
      }
    }
  }

  /** The escaped text ends as the escape of its last character ends. */
  lemma {:induction false} EscapeLast(x: string)
    requires |x| > 0
    ensures var e := EscapeAmp(x); var c := EscapeChar(x[|x| - 1]);
      |e| > 0 && e[|e| - 1] == c[|c| - 1]
    decreases |x|
  {
    if |x| > 1 {
      EscapeLast(x[1..]);
      assert x[1..][|x| - 2] == x[|x| - 1];
    }
  }

  lemma EscapeTrimmed(s: string)
    requires IsTrimmed(s)
    ensures IsTrimmed(EscapeAmp(s))
  {
    if |s| > 0 {
      EscapeHead(s);
      EscapeLast(s);
    }
  }

  lemma PairChars(x: string, i: int)
    ensures SubstrAt(x, i, "<?") <==> 0 <= i && i + 2 <= |x| && x[i] == '<' && x[i + 1] == '?'
  {
    if 0 <= i && i + 2 <= |x| {
      assert x[i..i + 2] == [x[i], x[i + 1]];
    }
  }

  lemma EscapeHead(x: string)
    requires |x| > 0
    ensures |EscapeAmp(x)| > 0 && EscapeAmp(x)[0] == EscapeChar(x[0])[0]
  {
  }

  lemma {:induction false} EscapeNoProcessingInstruction(s: string)
    requires NoProcessingInstruction(s)
    ensures NoProcessingInstruction(EscapeAmp(s))
    decreases |s|
  {
    if |s| > 0 {
      var rest := s[1..];
      forall i | 0 <= i < |rest|
        ensures !SubstrAt(rest, i, "<?")
      {
        PairChars(rest, i);
        PairChars(s, i + 1);
      }
      EscapeNoProcessingInstruction(rest);
      var c := EscapeChar(s[0]);
      var e := EscapeAmp(rest);
      assert EscapeAmp(s) == c + e;
      forall i | 0 <= i < |c + e|
        ensures !SubstrAt(c + e, i, "<?")
      {
        PairChars(c + e, i);
        if i >= |c| {
          PairChars(e, i - |c|);
        } else if i + 1 < |c| {
          assert (c + e)[i + 1] == c[i + 1];
        } else if |rest| > 0 {
          assert (c + e)[i + 1] == e[0];
          EscapeHead(rest);
          PairChars(s, 0);
        }
      }
    }
  }

  /** On text already in clean form, another pass does nothing but escape
      ampersands once more. */
  lemma CleanFormPass(s: string)
    requires CleanForm(s)
    ensures CleanSvg(s) == EscapeAmp(s)
  {
    assert Strip(s) == s;
    assert "```svg" <= s ==> "```" <= s;
    assert DropOpeningFence(s) == s;
    assert |s| >= 4 ==> !IsSpace(s[|s| - 1]);
    assert !EndsWith(s, "```\n");
    assert DropClosingFence(s) == s;
    var e := EscapeAmp(s);
    EscapeNoProcessingInstruction(s);
    forall k | 0 <= k
      ensures !DeclAt(e, k)
    {
      if DeclAt(e, k) {
        DeclNeedsPair(e, k);
      }
    }
    assert RemoveFirstDecl(e) == e;
    EscapeTrimmed(s);
    EscapeOnlyNewline(s);
    if s == "" {
      assert KeepNonBlank(Segments(e)) == [];
    } else {
      SegmentsEscape(s);
      var ls := Segments(s);
      forall k | 0 <= k < |ls|
        ensures !IsBlank(EscapeEach(ls)[k])
      {
        EscapeNonBlank(ls[k]);
      }
      assert KeepNonBlank(Segments(e)) == Segments(e);
      JoinSegments(e);
    }
  }

  /** Clean-form text without `&` is a fixed point of the cleaning. */
  lemma CleanSvgFixedPoint(s: string)
    requires CleanForm(s) && '&' !in s
    ensures CleanSvg(s) == s
  {
    CleanFormPass(s);
  }

  /** Because every `&` is replaced unconditionally, a second pass over
      clean-form text containing `&` changes it: `&amp;` becomes
      `&amp;amp;`. */
  lemma CleanSvgNotIdempotent(s: string)
    requires CleanForm(s) && '&' in s
    ensures CleanSvg(s) != s
    ensures |CleanSvg(s)| >= |s| + 4
  {
    CleanFormPass(s);
  }

  /** Applied to its own output, the cleaning changes the text exactly when
      that output holds an `&`, provided the output neither starts nor ends
      with a fence and holds no `<?`. */
  lemma SecondPass(svg: string)
    requires var t := CleanSvg(svg);
      !("```" <= t) && !EndsWith(t, "```") && NoProcessingInstruction(t)
    ensures var t := CleanSvg(svg);
      && CleanSvg(t) == EscapeAmp(t)
      && ('&' in t <==> CleanSvg(t) != t)
  {
    var t := CleanSvg(svg);
    CleanFormPass(t);
  }
}
