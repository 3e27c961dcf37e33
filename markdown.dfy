/**
  The markdown-subset renderer of the build script (`md_to_html`).

  Heading lines are taken out of the body, and the last second-level heading
  becomes the section title. The body is cut into paragraphs at blank lines.
  Single-line `key:` metadata paragraphs are dropped. Every other paragraph
  gets bold, italic and em-dash rewriting and is wrapped in `<p>`.
 */
module Markdown {
  import opened Options
  import opened Text

  // ---------------------------------------------------------------- headings

  /** A first-level heading: the stripped line starts with `# ` but not `## `. */
  predicate IsH1(stripped: string) {
    |stripped| >= 2 && stripped[0] == '#' && stripped[1] == ' ' && !IsH2(stripped)
  }

  /** A second-level heading: the stripped line starts with `## `. */
  predicate IsH2(stripped: string) {
    |stripped| >= 3 && stripped[0] == '#' && stripped[1] == '#' && stripped[2] == ' '
  }

  predicate IsHeading(line: string) {
    IsH1(Strip(line)) || IsH2(Strip(line))
  }

  /** The title a second-level heading line carries. */
  function H2Text(line: string): string
    requires IsH2(Strip(line))
  {
    Strip(Strip(line)[3..])
  }

  // ---------------------------------------------------------------- line scan

  /** The variables of the scan over the lines: the title so far, the body
      lines kept so far, and whether the next blank line is swallowed. */
  datatype LineScan = LineScan(title: string, body: seq<string>, skipBlank: bool)

  /** One turn of the scan loop. */
  function ScanStep(st: LineScan, line: string): LineScan {
    var stripped := Strip(line);
    if IsH1(stripped) then st.(skipBlank := true)
    else if IsH2(stripped) then st.(title := Strip(stripped[3..]), skipBlank := true)
    else if st.skipBlank && stripped == [] then st.(skipBlank := false)
    else st.(skipBlank := false, body := st.body + [line])
  }

  /** The scan state after the given lines, from the initial state. */
  function Scan(lines: seq<string>): LineScan {
    if lines == [] then LineScan("", [], false)
    else ScanStep(Scan(lines[..|lines| - 1]), lines[|lines| - 1])
  }

  /** The text of the last second-level heading, if there is one. */
  function LastH2(lines: seq<string>): (r: Option<string>)
    ensures r.None? <==> forall i :: 0 <= i < |lines| ==> !IsH2(Strip(lines[i]))
  {
    if lines == [] then None
    else
      var last := lines[|lines| - 1];
      if IsH2(Strip(last)) then Some(H2Text(last)) else LastH2(lines[..|lines| - 1])
  }

  /** The title is the text of the last second-level heading. */
  lemma {:induction false} LastH2IsLast(lines: seq<string>, i: nat)
    requires i < |lines| && IsH2(Strip(lines[i]))
    requires forall j :: i < j < |lines| ==> !IsH2(Strip(lines[j]))
    ensures LastH2(lines) == Some(H2Text(lines[i]))
  {
    var n := |lines| - 1;
    if i < n {
      var init := lines[..n];
      assert !IsH2(Strip(lines[n]));
      assert LastH2(lines) == LastH2(init);
      forall j | i < j < |init| ensures !IsH2(Strip(init[j])) {
        assert init[j] == lines[j];
      }
      assert init[i] == lines[i];
      LastH2IsLast(init, i);
    }
  }

  /** Line `i` reaches the body: it is not a heading, and it is not a blank
      line right after a heading. */
  predicate Kept(lines: seq<string>, i: nat)
    requires i < |lines|
  {
    && !IsHeading(lines[i])
    && !(i > 0 && IsHeading(lines[i - 1]) && Strip(lines[i]) == [])
  }

  /** The lines that reach the body, in order. */
  function KeptLines(lines: seq<string>): (r: seq<string>)
    ensures |r| <= |lines|
    ensures forall i :: 0 <= i < |r| ==> !IsHeading(r[i])
  {
    if lines == [] then []
    else
      var n := |lines| - 1;
      KeptLines(lines[..n]) + (if Kept(lines, n) then [lines[n]] else [])
  }

  /** The scan computes the last heading's title, the kept lines, and a
      pending skip exactly when the previous line was a heading. */
  lemma {:induction false} ScanMeaning(lines: seq<string>)
    ensures Scan(lines).title == LastH2(lines).GetOr("")
    ensures Scan(lines).body == KeptLines(lines)
    ensures Scan(lines).skipBlank == (lines != [] && IsHeading(lines[|lines| - 1]))
  {
    if lines != [] {
      var n := |lines| - 1;
      var init := lines[..n];
      var line := lines[n];
      var stripped := Strip(line);
      ScanMeaning(init);
      assert n > 0 ==> init[n - 1] == lines[n - 1];
      var st := Scan(init);
      assert Scan(lines) == ScanStep(st, line);
      assert KeptLines(lines) == KeptLines(init) + (if Kept(lines, n) then [line] else []);
      if IsH1(stripped) {
        assert !Kept(lines, n);
      } else if IsH2(stripped) {
        assert !Kept(lines, n);
      } else if st.skipBlank && stripped == [] {
        assert !Kept(lines, n);
      } else {
        assert Kept(lines, n);
      }
    }
  }

  // ---------------------------------------------------------------- paragraphs

  /** The end of the run of whitespace that starts at `j`. */
  function WsRunEnd(s: string, j: nat): (e: nat)
    requires j <= |s|
    ensures j <= e <= |s| && AllWs(s[j..e]) && (e == |s| || !IsWs(s[e]))
    decreases |s| - j
  {
    if j < |s| && IsWs(s[j]) then WsRunEnd(s, j + 1) else j
  }

  lemma {:induction false} WsRunEndCovers(s: string, j: nat, k: nat)
    requires j <= k <= |s| && AllWs(s[j..k])
    ensures k <= WsRunEnd(s, j)
    decreases k - j
  {
    if j < k {
      assert IsWs(s[j..k][0]);
      assert s[j + 1..k] == s[j..k][1..];
      WsRunEndCovers(s, j + 1, k);
    }
  }

  /** The last newline in `s[lo..hi]`. */
  function LastNewline(s: string, lo: nat, hi: nat): (r: Option<nat>)
    requires lo <= hi <= |s|
    ensures r.Some? ==> lo <= r.value < hi && s[r.value] == '\n'
    ensures r.None? ==> '\n' !in s[lo..hi]
    ensures r.Some? ==> '\n' !in s[r.value + 1..hi]
    decreases hi - lo
  {
    if hi == lo then None
    else if s[hi - 1] == '\n' then Some(hi - 1)
    else
      var r := LastNewline(s, lo, hi - 1);
      assert r.None? ==> s[lo..hi] == s[lo..hi - 1] + [s[hi - 1]];
      assert r.Some? ==> s[r.value + 1..hi] == s[r.value + 1..hi - 1] + [s[hi - 1]];
      r
  }

  /** Where the match of `\n\s*\n` starting at `i` ends, if there is one:
      the greedy `\s*` gives back characters up to the last newline of the
      whitespace run after `i`. */
  function BlankBreak(s: string, i: nat): (r: Option<nat>)
    requires i < |s|
    ensures r.Some? ==> i + 2 <= r.value <= |s| && s[i] == '\n' && s[r.value - 1] == '\n'
    ensures r.Some? ==> AllWs(s[i + 1..r.value - 1])
  {
    if s[i] != '\n' then None
    else
      var e := WsRunEnd(s, i + 1);
      match LastNewline(s, i + 1, e)
      case None => None
      case Some(m) =>
        assert s[i + 1..m] == s[i + 1..e][..m - i - 1];
        Some(m + 1)
  }

  /** A newline that only whitespace separates from `i` lies inside the
      whitespace run after `i`. */
  lemma NewlineInRun(s: string, i: nat, k: nat)
    requires i < k < |s| && s[k] == '\n' && AllWs(s[i + 1..k])
    ensures k < WsRunEnd(s, i + 1)
  {
    forall m | i + 1 <= m <= k ensures IsWs(s[m]) {
      if m < k {
        assert s[m] == s[i + 1..k][m - i - 1];
      }
    }
    WsRunEndCovers(s, i + 1, k + 1);
  }

  /** The greedy `\s*`: a match ends right after the last newline that only
      whitespace separates from `i`, and there is no match when `s[i]` is not
      a newline or no such newline exists. */
  lemma BlankBreakLongest(s: string, i: nat)
    requires i < |s|
    ensures BlankBreak(s, i).Some? ==>
      forall k :: BlankBreak(s, i).value <= k < |s| && s[k] == '\n' ==> !AllWs(s[i + 1..k])
    ensures BlankBreak(s, i).None? ==>
      s[i] != '\n' || forall k :: i < k < |s| && s[k] == '\n' ==> !AllWs(s[i + 1..k])
  {
    if s[i] == '\n' {
      var e := WsRunEnd(s, i + 1);
      forall k | i < k < |s| && s[k] == '\n' && AllWs(s[i + 1..k])
        ensures LastNewline(s, i + 1, e).Some? && k < LastNewline(s, i + 1, e).value + 1
      {
        NewlineInRun(s, i, k);
        assert s[i + 1..e][k - i - 1] == '\n';
      }
    }
  }

  /** A blank line: two newlines with only whitespace between them. */
  predicate HasBlankLine(t: string) {
    exists j, k :: 0 <= j < k < |t| && t[j] == '\n' && t[k] == '\n' && AllWs(t[j + 1..k])
  }

  /** A match starts at `i` exactly when a blank line starts there. */
  lemma BreakFromBlank(s: string, i: nat, k: nat)
    requires i < k < |s| && s[i] == '\n' && s[k] == '\n' && AllWs(s[i + 1..k])
    ensures BlankBreak(s, i).Some?
  {
    forall m | i + 1 <= m <= k ensures IsWs(s[m]) {
      if m < k {
        assert s[m] == s[i + 1..k][m - i - 1];
      }
    }
    WsRunEndCovers(s, i + 1, k + 1);
    var e := WsRunEnd(s, i + 1);
    assert s[i + 1..e][k - i - 1] == '\n';
  }

  /** The pieces from `start` on, once the scan has reached `i` without a
      match since `start`. */
  function SplitBlankFrom(s: string, start: nat, i: nat): (r: seq<string>)
    requires start <= i <= |s|
    ensures |r| >= 1
    decreases |s| - i
  {
    if i == |s| then [s[start..]]
    else match BlankBreak(s, i)
      case Some(e) => [s[start..i]] + SplitBlankFrom(s, e, e)
      case None => SplitBlankFrom(s, start, i + 1)
  }

  /** `re.split(r'\n\s*\n', s)`. */
  function SplitParagraphs(s: string): seq<string> {
    SplitBlankFrom(s, 0, 0)
  }

  /** A match of `\n\s*\n` from `cut.0` to `cut.1`. */
  predicate IsCut(s: string, cut: (nat, nat)) {
    cut.0 < |s| && BlankBreak(s, cut.0) == Some(cut.1)
  }

  /** `piece` is `s[lo..hi]`, and no match starts inside it. */
  predicate IsPiece(s: string, lo: nat, hi: nat, piece: string) {
    lo <= hi <= |s| && piece == s[lo..hi] && forall m :: lo <= m < hi ==> BlankBreak(s, m).None?
  }

  /** `pieces` are the consecutive slices of `s` from `start` on between the
      matches `cuts` (start and end of each): the first piece runs up to the
      first match, the next one starts where that match ends, and the last
      one runs to the end of `s`. */
  predicate SplitBy(s: string, start: nat, cuts: seq<(nat, nat)>, pieces: seq<string>)
    decreases |cuts|
  {
    && |pieces| == |cuts| + 1
    && if cuts == [] then IsPiece(s, start, |s|, pieces[0])
       else && IsCut(s, cuts[0])
            && IsPiece(s, start, cuts[0].0, pieces[0])
            && SplitBy(s, cuts[0].1, cuts[1..], pieces[1..])
  }

  lemma {:induction false} SplitFromSlices(s: string, start: nat, i: nat) returns (cuts: seq<(nat, nat)>)
    requires start <= i <= |s|
    requires forall m :: start <= m < i ==> BlankBreak(s, m).None?
    ensures SplitBy(s, start, cuts, SplitBlankFrom(s, start, i))
    decreases |s| - i
  {
    if i == |s| {
      cuts := [];
    } else {
      match BlankBreak(s, i)
      case Some(e) =>
        var rest := SplitFromSlices(s, e, e);
        cuts := [(i, e)] + rest;
        assert cuts[1..] == rest;
      case None =>
        cuts := SplitFromSlices(s, start, i + 1);
    }
  }

  /** `re.split` cuts the text at the leftmost, non-overlapping matches of
      `\n\s*\n`: the paragraphs are the slices between them. */
  lemma SplitParagraphsSlices(s: string)
    ensures exists cuts :: SplitBy(s, 0, cuts, SplitParagraphs(s))
  {
    var cuts := SplitFromSlices(s, 0, 0);
    assert SplitBy(s, 0, cuts, SplitParagraphs(s));
  }

  lemma NoBreakNoBlank(s: string, a: nat, b: nat)
    requires a <= b <= |s|
    requires forall m :: a <= m < b ==> BlankBreak(s, m).None?
    ensures !HasBlankLine(s[a..b])
  {
    var t := s[a..b];
    forall j, k | 0 <= j < k < |t| && t[j] == '\n' && t[k] == '\n'
      ensures !AllWs(t[j + 1..k])
    {
      if AllWs(t[j + 1..k]) {
        forall m | 0 <= m < |t| ensures t[m] == s[a + m] { }
        assert s[a + j + 1..a + k] == t[j + 1..k];
        BreakFromBlank(s, a + j, a + k);
      }
    }
  }

  lemma {:induction false} PiecesFromHaveNoBlank(s: string, start: nat, i: nat)
    requires start <= i <= |s|
    requires forall m :: start <= m < i ==> BlankBreak(s, m).None?
    ensures forall p :: p in SplitBlankFrom(s, start, i) ==> !HasBlankLine(p)
    decreases |s| - i
  {
    if i == |s| {
      NoBreakNoBlank(s, start, i);
      assert s[start..] == s[start..i];
    } else {
      match BlankBreak(s, i)
      case Some(e) =>
        NoBreakNoBlank(s, start, i);
        PiecesFromHaveNoBlank(s, e, e);
      case None =>
        PiecesFromHaveNoBlank(s, start, i + 1);
    }
  }

  /** No paragraph contains a blank line. */
  lemma ParagraphsHaveNoBlankLine(s: string)
    ensures forall p :: p in SplitParagraphs(s) ==> !HasBlankLine(p)
  {
    PiecesFromHaveNoBlank(s, 0, 0);
  }

  lemma {:induction false} SplitFromWithoutBreak(s: string, start: nat, i: nat)
    requires start <= i <= |s|
    requires forall m :: i <= m < |s| ==> BlankBreak(s, m).None?
    ensures SplitBlankFrom(s, start, i) == [s[start..]]
    decreases |s| - i
  {
    if i < |s| {
      SplitFromWithoutBreak(s, start, i + 1);
    }
  }

  lemma {:induction false} SplitFromWithBreak(s: string, start: nat, i: nat, m: nat)
    requires start <= i <= m < |s| && BlankBreak(s, m).Some?
    ensures |SplitBlankFrom(s, start, i)| >= 2
    decreases |s| - i
  {
    if BlankBreak(s, i).None? {
      SplitFromWithBreak(s, start, i + 1, m);
    }
  }

  /** A text splits into several paragraphs exactly when it holds a blank
      line; otherwise it is one paragraph, unchanged. */
  lemma SplitParagraphsIff(s: string)
    ensures |SplitParagraphs(s)| > 1 <==> HasBlankLine(s)
    ensures !HasBlankLine(s) ==> SplitParagraphs(s) == [s]
  {
    if HasBlankLine(s) {
      var j, k :| 0 <= j < k < |s| && s[j] == '\n' && s[k] == '\n' && AllWs(s[j + 1..k]);
      BreakFromBlank(s, j, k);
      SplitFromWithBreak(s, 0, 0, j);
    } else {
      forall m | 0 <= m < |s| ensures BlankBreak(s, m).None? {
      }
      SplitFromWithoutBreak(s, 0, 0);
    }
  }

  // ---------------------------------------------------------------- metadata

  predicate IsKeyChar(c: char) {
    'a' <= c <= 'z' || c == '_'
  }

  /** Length of the longest prefix made of `[a-z_]`. */
  function KeyLen(q: string): (n: nat)
    ensures n <= |q| && (forall m :: 0 <= m < n ==> IsKeyChar(q[m]))
    ensures n == |q| || !IsKeyChar(q[n])
  {
    if q != [] && IsKeyChar(q[0]) then 1 + KeyLen(q[1..]) else 0
  }

  /** `re.match(r'^[a-z_]+:', q)`: the greedy key run is followed by `:`. */
  predicate IsMetadata(q: string) {
    var n := KeyLen(q);
    0 < n < |q| && q[n] == ':'
  }

  /** The scanner agrees with the regular expression read as a pattern:
      one or more `[a-z_]` characters, then a colon. */
  lemma MetadataIff(q: string)
    ensures IsMetadata(q) <==>
      exists k :: 0 < k < |q| && q[k] == ':' && forall m :: 0 <= m < k ==> IsKeyChar(q[m])
  {
  }

  /** A stripped paragraph survives: it is not empty, and it is not a
      single-line metadata entry. */
  predicate KeepParagraph(q: string) {
    q != [] && !(IsMetadata(q) && '\n' !in q)
  }

  // ---------------------------------------------------------------- inline

  /** Lazy search for the closing delimiter of an emphasis, from `k` on: the
      first `d` wins, and the inner text may not cross a newline. */
  function FindClose(p: string, d: string, k: nat): (r: Option<nat>)
    requires d != [] && k <= |p|
    ensures r.Some? ==> k <= r.value <= |p| && d <= p[r.value..] && '\n' !in p[k..r.value]
    ensures r.Some? ==> forall m :: k <= m < r.value ==> !(d <= p[m..])
    ensures r.None? ==> forall m :: k <= m <= |p| && '\n' !in p[k..m] ==> !(d <= p[m..])
    decreases |p| - k
  {
    if d <= p[k..] then Some(k)
    else if k < |p| && p[k] != '\n' then
      var r := FindClose(p, d, k + 1);
      assert r.Some? ==> p[k..r.value] == [p[k]] + p[k + 1..r.value];
      assert forall m :: k + 1 <= m <= |p| ==> p[k..m] == [p[k]] + p[k + 1..m];
      r
    else
      assert forall m :: k < m <= |p| ==> p[k..m][0] == p[k];
      None
  }

  /** A match of `d(.+?)d` at the start of a paragraph: the group, and the
      text after the closing delimiter. */
  datatype Emphasis = Emphasis(inner: string, rest: string)

  function MatchEmphasis(p: string, d: string): (r: Option<Emphasis>)
    requires d != []
    ensures r.Some? ==> r.value.inner != [] && '\n' !in r.value.inner
    ensures r.Some? ==> p == d + r.value.inner + d + r.value.rest
    ensures r.Some? ==> forall m :: |d| < m < |d| + |r.value.inner| ==> !(d <= p[m..])
  {
    if d <= p && |d| < |p| && p[|d|] != '\n' then
      match FindClose(p, d, |d| + 1)
      case Some(k) =>
        assert k + |d| <= |p| && p[k..k + |d|] == d;
        assert p[..|d|] == d;
        assert p[|d|..k] == [p[|d|]] + p[|d| + 1..k];
        FourPieces(p, |d|, k, k + |d|);
        Some(Emphasis(p[|d|..k], p[k + |d|..]))
      case None => None
    else None
  }

  /** `re.sub(d(.+?)d, open + group + close, p)`: leftmost matches, left to
      right, scanning on after each one. */
  function Emphasize(p: string, d: string, open: string, close: string): string
    requires d != []
    decreases |p|
  {
    if p == [] then []
    else match MatchEmphasis(p, d)
      case Some(e) => open + e.inner + close + Emphasize(e.rest, d, open, close)
      case None => [p[0]] + Emphasize(p[1..], d, open, close)
  }

  /** A paragraph without the delimiter is left as it is. */
  lemma {:induction false} EmphasizeAbsent(p: string, d: string, open: string, close: string)
    requires d != [] && !Contains(p, d)
    ensures Emphasize(p, d, open, close) == p
    decreases |p|
  {
    if p != [] {
      assert !OccursAt(p, d, 0);
      NotContainsDrop(p, d, 1);
      EmphasizeAbsent(p[1..], d, open, close);
    }
  }

  /** The search stops at a closing delimiter. */
  lemma FindCloseHere(p: string, d: string, k: nat)
    requires d != [] && k <= |p| && d <= p[k..]
    ensures FindClose(p, d, k) == Some(k)
  {
  }

  /** The search steps over a character that neither closes nor is a newline. */
  lemma FindCloseNext(p: string, d: string, k: nat)
    requires d != [] && k < |p| && !(d <= p[k..]) && p[k] != '\n'
    ensures FindClose(p, d, k) == FindClose(p, d, k + 1)
  {
  }

  /** The pieces of a delimited run `d + x + d + y`. */
  lemma Delimited(d: string, x: string, y: string)
    ensures var p := d + x + d + y;
      && p[..|d|] == d && p[|d|..|d| + |x|] == x
      && p[|d| + |x|..] == d + y && p[|d| + |x| + |d|..] == y
      && forall i :: 0 <= i < |x| ==> p[|d| + i] == x[i]
  {
  }

  /** The search runs over characters that neither start the delimiter nor
      are newlines, up to the first closing delimiter. */
  lemma {:induction false} FindCloseScan(p: string, d: string, j: nat, e: nat)
    requires d != [] && j <= e <= |p| && d <= p[e..]
    requires forall m :: j <= m < e ==> p[m] != d[0] && p[m] != '\n'
    ensures FindClose(p, d, j) == Some(e)
    decreases e - j
  {
    if j == e {
      FindCloseHere(p, d, j);
    } else {
      assert p[j..][0] == p[j];
      FindCloseNext(p, d, j);
      FindCloseScan(p, d, j + 1, e);
    }
  }

  /** A delimited run with a non-empty inner text free of the delimiter's
      first character and of newlines matches, and the group is that text. */
  lemma MatchDelimited(d: string, x: string, y: string)
    requires d != [] && x != [] && d[0] !in x && '\n' !in x
    ensures MatchEmphasis(d + x + d + y, d) == Some(Emphasis(x, y))
  {
    Delimited(d, x, y);
    MatchPieces(d + x + d + y, d, x, y);
  }

  /** The same, for a text known only through its pieces. */
  lemma MatchPieces(p: string, d: string, x: string, y: string)
    requires d != [] && x != [] && d[0] !in x && '\n' !in x
    requires |p| == |d| + |x| + |d| + |y|
    requires p[..|d|] == d && p[|d|..|d| + |x|] == x
    requires p[|d| + |x|..] == d + y && p[|d| + |x| + |d|..] == y
    requires forall i :: 0 <= i < |x| ==> p[|d| + i] == x[i]
    ensures MatchEmphasis(p, d) == Some(Emphasis(x, y))
  {
    var k := |d| + |x|;
    forall m | |d| + 1 <= m < k ensures p[m] != d[0] && p[m] != '\n' {
      assert p[|d| + (m - |d|)] == x[m - |d|];
    }
    assert p[|d| + 0] == x[0];
    assert d <= p;
    assert d <= p[k..];
    FindCloseScan(p, d, |d| + 1, k);
    MatchAt(p, d, k);
  }

  /** Every run `d x d` with a non-empty, newline-free `x` at the start of a
      text is matched (with the shortest such `x`). */
  lemma MatchEmphasisComplete(d: string, x: string, y: string)
    requires d != [] && x != [] && '\n' !in x
    ensures MatchEmphasis(d + x + d + y, d).Some?
  {
    Delimited(d, x, y);
    RunMatches(d + x + d + y, d, x, y);
  }

  lemma RunMatches(p: string, d: string, x: string, y: string)
    requires d != [] && x != [] && '\n' !in x
    requires |p| == |d| + |x| + |d| + |y|
    requires p[..|d|] == d && p[|d| + |x|..] == d + y
    requires forall i :: 0 <= i < |x| ==> p[|d| + i] == x[i]
    ensures MatchEmphasis(p, d).Some?
  {
    var k := |d| + |x|;
    assert p[|d| + 0] == x[0];
    assert d <= p;
    assert d <= p[k..];
    assert '\n' !in p[|d| + 1..k] by {
      forall m | |d| + 1 <= m < k ensures p[m] != '\n' {
        assert p[|d| + (m - |d|)] == x[m - |d|];
      }
    }
  }

  /** An opening delimiter not followed by a newline, and a closing one found
      by the search, make a match. */
  lemma MatchAt(p: string, d: string, k: nat)
    requires d != [] && d <= p && |d| < |p| && p[|d|] != '\n' && FindClose(p, d, |d| + 1) == Some(k)
    ensures MatchEmphasis(p, d) == Some(Emphasis(p[|d|..k], p[k + |d|..]))
  {
  }

  /** Such a run is wrapped in the tags, and the rest is rewritten on. */
  lemma EmphasisWraps(d: string, x: string, y: string, open: string, close: string)
    requires d != [] && x != [] && d[0] !in x && '\n' !in x
    ensures Emphasize(d + x + d + y, d, open, close) == open + x + close + Emphasize(y, d, open, close)
  {
    MatchDelimited(d, x, y);
  }

  const StrongOpen: string := "<strong class=\"text-dark-50\">"
  const EmDash: char := '\U{2014}'

  /** `**x**` becomes strong emphasis. */
  function Bold(p: string): string {
    Emphasize(p, "**", StrongOpen, "</strong>")
  }

  /** `*x*` becomes emphasis. */
  function Italic(p: string): string {
    Emphasize(p, "*", "<em>", "</em>")
  }

  /** A spaced em dash, then an em dash followed by a space, become the entity. */
  function Dashes(p: string): string {
    ReplaceAll(ReplaceAll(p, [' ', EmDash, ' '], " &mdash; "), [EmDash, ' '], "&mdash; ")
  }

  /** The inline rewrites, in the order the renderer applies them. */
  function Inline(p: string): string {
    Dashes(Italic(Bold(p)))
  }

  /** A paragraph with no asterisk and no em dash is not rewritten. */
  lemma InlinePlain(p: string)
    requires '*' !in p && EmDash !in p
    ensures Inline(p) == p
  {
    ContainsByChar(p, "**", '*');
    EmphasizeAbsent(p, "**", StrongOpen, "</strong>");
    ContainsByChar(p, "*", '*');
    EmphasizeAbsent(p, "*", "<em>", "</em>");
    ContainsByChar(p, [' ', EmDash, ' '], EmDash);
    ReplaceAllAbsent(p, [' ', EmDash, ' '], " &mdash; ");
    ContainsByChar(p, [EmDash, ' '], EmDash);
    ReplaceAllAbsent(p, [EmDash, ' '], "&mdash; ");
  }

  /** After the dash rewrites no em dash is followed by a space. */
  lemma NoBareDashLeft(p: string)
    ensures !Contains(Inline(p), [EmDash, ' '])
  {
    var q := ReplaceAll(Italic(Bold(p)), [' ', EmDash, ' '], " &mdash; ");
    SafeByHead([EmDash, ' '], "&mdash; ");
    ReplaceAllAvoids(q, [EmDash, ' '], "&mdash; ", [EmDash, ' ']);
  }

  /** The `<p>` fragments of the paragraphs, in order. */
  function Fragments(paragraphs: seq<string>): seq<string> {
    if paragraphs == [] then []
    else
      var n := |paragraphs| - 1;
      var q := Strip(paragraphs[n]);
      Fragments(paragraphs[..n]) + (if KeepParagraph(q) then ["<p>" + Inline(q) + "</p>"] else [])
  }

  /** The stripped paragraphs that survive, in order. */
  function KeptParagraphs(paragraphs: seq<string>): (r: seq<string>)
    ensures |r| <= |paragraphs|
    ensures forall i :: 0 <= i < |r| ==> KeepParagraph(r[i]) && Stripped(r[i])
  {
    if paragraphs == [] then []
    else
      var n := |paragraphs| - 1;
      var q := Strip(paragraphs[n]);
      KeptParagraphs(paragraphs[..n]) + (if KeepParagraph(q) then [q] else [])
  }

  /** Each surviving paragraph yields exactly one fragment, in source order. */
  lemma {:induction false} FragmentsOfKept(paragraphs: seq<string>)
    ensures |Fragments(paragraphs)| == |KeptParagraphs(paragraphs)|
    ensures forall i :: 0 <= i < |Fragments(paragraphs)| ==>
      Fragments(paragraphs)[i] == "<p>" + Inline(KeptParagraphs(paragraphs)[i]) + "</p>"
  {
    if paragraphs != [] {
      FragmentsOfKept(paragraphs[..|paragraphs| - 1]);
    }
  }

  /** A paragraph is dropped exactly when, stripped, it is empty or a single
      line that starts with `[a-z_]+` and a colon. */
  lemma ParagraphDroppedIff(p: string)
    ensures var q := Strip(p);
      Fragments([p]) == [] <==>
        || q == []
        || ('\n' !in q && exists k :: 0 < k < |q| && q[k] == ':' && forall m :: 0 <= m < k ==> IsKeyChar(q[m]))
  {
    MetadataIff(Strip(p));
    assert [p][..0] == [];
  }

  // ---------------------------------------------------------------- document

  const ParagraphSeparator: string := "\n                "

  /** The section title `md_to_html` returns. */
  function DocumentTitle(text: string): string {
    LastH2(Lines(text)).GetOr("")
  }

  /** The body markup `md_to_html` returns. */
  function DocumentBody(text: string): string {
    var bodyText := Strip(Join(KeptLines(Lines(text)), "\n"));
    Join(Fragments(SplitParagraphs(bodyText)), ParagraphSeparator)
  }

  /** The first loop of `md_to_html`: the title and the body lines. */
  method ScanLines(lines: seq<string>) returns (title: string, bodyLines: seq<string>)
    ensures title == LastH2(lines).GetOr("")
    ensures bodyLines == KeptLines(lines)
  {
    title := "";
    bodyLines := [];
    var skipBlank := false;
    for i := 0 to |lines|
      invariant LineScan(title, bodyLines, skipBlank) == Scan(lines[..i])
    {
      assert lines[..i + 1][..i] == lines[..i];
      var line := lines[i];
      var stripped := Strip(line);
      if IsH1(stripped) {
        skipBlank := true;
        continue;
      }
      if IsH2(stripped) {
        title := Strip(stripped[3..]);
        skipBlank := true;
        continue;
      }
      if skipBlank && stripped == [] {
        skipBlank := false;
        continue;
      }
      skipBlank := false;
      bodyLines := bodyLines + [line];
    }
    assert lines[..|lines|] == lines;
    ScanMeaning(lines);
  }

  /** The second loop of `md_to_html`: one fragment per surviving paragraph. */
  method RenderParagraphs(paragraphs: seq<string>) returns (parts: seq<string>)
    ensures parts == Fragments(paragraphs)
  {
    parts := [];
    for j := 0 to |paragraphs|
      invariant parts == Fragments(paragraphs[..j])
    {
      assert paragraphs[..j + 1][..j] == paragraphs[..j];
      var p := Strip(paragraphs[j]);
      if p == [] {
        continue;
      }
      if IsMetadata(p) && '\n' !in p {
        continue;
      }
      p := Emphasize(p, "**", StrongOpen, "</strong>");
      p := Emphasize(p, "*", "<em>", "</em>");
      p := ReplaceAll(p, [' ', EmDash, ' '], " &mdash; ");
      p := ReplaceAll(p, [EmDash, ' '], "&mdash; ");
      parts := parts + ["<p>" + p + "</p>"];
    }
    assert paragraphs[..|paragraphs|] == paragraphs;
  }

  /** `md_to_html(text)`: the section title and the body markup. */
  method MdToHtml(text: string) returns (title: string, html: string)
    ensures title == DocumentTitle(text)
    ensures html == DocumentBody(text)
  {
    var bodyLines;
    title, bodyLines := ScanLines(Lines(text));
    var parts := RenderParagraphs(SplitParagraphs(Strip(Join(bodyLines, "\n"))));
    html := Join(parts, ParagraphSeparator);
  }

  /** A blank document renders to an empty title and an empty body. */
  lemma BlankDocument(text: string)
    requires AllWs(text)
    ensures DocumentTitle(text) == "" && DocumentBody(text) == ""
  {
    StripEmptyIff(text);
    assert Lines(text) == [""];
    assert KeptLines([""]) == [""] by {
      assert [""][..0] == [];
    }
    assert Strip(Join([""], "\n")) == "";
    assert SplitParagraphs("") == [""];
    assert Fragments([""]) == [] by {
      assert [""][..0] == [];
    }
  }
}
