/**
  The page assembler of the build script (`build_page`): a fixed chain of
  `str.replace` calls that fills the `{{name}}` placeholders of the base
  template, in order.
 */
module Page {
  import opened Options
  import opened Text
  import Cards

  /** The token `{{name}}` of the template. */
  function Placeholder(name: string): (r: string)
    ensures |r| == |name| + 4 && r[0] == '{' && r[1] == '{' && r[|r| - 1] == '}'
  {
    "{{" + name + "}}"
  }

  /** A placeholder name: no braces inside. */
  predicate IsName(name: string) {
    '{' !in name && '}' !in name
  }

  /** `html = html.replace('{{name}}', value)` for each pair, in order. */
  function SubstituteAll(h: string, subs: seq<(string, string)>): string
    decreases |subs|
  {
    if subs == [] then h
    else SubstituteAll(ReplaceAll(h, Placeholder(subs[0].0), subs[0].1), subs[1..])
  }

  const NavItems: seq<string> := ["about", "events"]

  /** The relative path to the site root. */
  function BasePath(isSubdir: bool): string {
    if isSubdir then ".." else "."
  }

  /** The class of a navigation entry. */
  function NavClass(activeNav: Option<string>, nav: string): string {
    if activeNav == Some(nav) then "nav-active" else "text-dark-200"
  }

  function NavName(nav: string): string {
    "nav_" + nav + "_class"
  }

  /** The pairs the navigation loop substitutes, one per entry, in order. */
  function NavSubs(navs: seq<string>, activeNav: Option<string>): (r: seq<(string, string)>)
    ensures |r| == |navs|
    ensures forall i :: 0 <= i < |navs| ==> r[i] == (NavName(navs[i]), NavClass(activeNav, navs[i]))
  {
    if navs == [] then [] else [(NavName(navs[0]), NavClass(activeNav, navs[0]))] + NavSubs(navs[1..], activeNav)
  }

  /** The substitutions of `build_page`, in the order they are made. */
  function PageSubs(pageTitle: string, pageDescription: string, ogTitle: string, pageContent: string,
                    pageScripts: string, activeNav: Option<string>, isSubdir: bool): seq<(string, string)>
  {
    [ ("page_title", pageTitle), ("page_description", pageDescription), ("og_title", ogTitle),
      ("page_content", pageContent), ("page_scripts", pageScripts), ("base", BasePath(isSubdir)) ]
      + NavSubs(NavItems, activeNav)
  }

  /** `build_page(base, ...)`. */
  function BuildPage(base: string, pageTitle: string, pageDescription: string, ogTitle: string,
                     pageContent: string, pageScripts: string, activeNav: Option<string>, isSubdir: bool): string
  {
    SubstituteAll(base, PageSubs(pageTitle, pageDescription, ogTitle, pageContent, pageScripts, activeNav, isSubdir))
  }

  // ---------------------------------------------------------------- the chain

  lemma {:induction false} SubstituteAppend(h: string, a: seq<(string, string)>, b: seq<(string, string)>)
    ensures SubstituteAll(h, a + b) == SubstituteAll(SubstituteAll(h, a), b)
    decreases |a|
  {
    if a == [] {
      assert a + b == b;
    } else {
      assert (a + b)[0] == a[0] && (a + b)[1..] == a[1..] + b;
      SubstituteAppend(ReplaceAll(h, Placeholder(a[0].0), a[0].1), a[1..], b);
    }
  }

  /** Once `p` is absent, substituting values that cannot complete it keeps
      it absent. */
  lemma {:induction false} SubstituteAvoids(h: string, subs: seq<(string, string)>, p: string)
    requires !Contains(h, p)
    requires forall i :: 0 <= i < |subs| ==> Safe(p, subs[i].1)
    ensures !Contains(SubstituteAll(h, subs), p)
    decreases |subs|
  {
    if subs != [] {
      ReplaceAllAvoids(h, Placeholder(subs[0].0), subs[0].1, p);
      SubstituteAvoids(ReplaceAll(h, Placeholder(subs[0].0), subs[0].1), subs[1..], p);
    }
  }

  /** A text without an opening brace has no placeholder, so nothing changes. */
  lemma {:induction false} SubstituteNoBrace(h: string, subs: seq<(string, string)>)
    requires '{' !in h
    ensures SubstituteAll(h, subs) == h
    decreases |subs|
  {
    if subs != [] {
      ContainsByChar(h, Placeholder(subs[0].0), '{');
      ReplaceAllAbsent(h, Placeholder(subs[0].0), subs[0].1);
      SubstituteNoBrace(h, subs[1..]);
    }
  }

  /** Two different names give tokens that differ at some common index. */
  lemma TokensDiffer(name: string, other: string) returns (m: nat)
    requires IsName(name) && IsName(other) && name != other
    ensures m < |Placeholder(name)| && m < |Placeholder(other)|
    ensures Placeholder(name)[m] != Placeholder(other)[m]
  {
    var t, q := Placeholder(name), Placeholder(other);
    if |name| <= |other| && name == other[..|name|] {
      m := |name| + 2;
      assert q[m] == other[|name|];
    } else if |other| <= |name| && other == name[..|other|] {
      m := |other| + 2;
      assert t[m] == name[|other|];
    } else {
      var k :| 0 <= k < |name| && k < |other| && name[k] != other[k];
      m := k + 2;
    }
  }

  /** The token of `name`, between brace-free texts, survives the
      substitution of another name. */
  lemma KeepToken(a: string, name: string, b: string, other: string, value: string)
    requires '{' !in a && '{' !in b && IsName(name) && IsName(other) && name != other
    ensures ReplaceAll(a + Placeholder(name) + b, Placeholder(other), value) == a + Placeholder(name) + b
  {
    var t, q := Placeholder(name), Placeholder(other);
    var m := TokensDiffer(name, other);
    ReplaceAllPrefixFree(a, t + b, q, value);
    assert a + t + b == a + (t + b);
    var s := t + b;
    assert s[m] == t[m];
    assert !(q <= s);
    var s1 := s[1..];
    assert s1[1] == t[2] && t[2] != '{';
    assert !(q <= s1);
    var s2 := s1[1..];
    assert s2 == t[2..] + b;
    ContainsByChar(s2, q, '{');
    ReplaceAllAbsent(s2, q, value);
    assert s == [s[0]] + ([s1[0]] + s2);
  }

  /** The token of `name`, between brace-free texts, is replaced by the value. */
  lemma HitToken(a: string, name: string, b: string, value: string)
    requires '{' !in a && '{' !in b && IsName(name)
    ensures ReplaceAll(a + Placeholder(name) + b, Placeholder(name), value) == a + value + b
  {
    var t := Placeholder(name);
    ReplaceAllPrefixFree(a, t + b, t, value);
    assert a + t + b == a + (t + b);
    assert (t + b)[|t|..] == b;
    ContainsByChar(b, t, '{');
    ReplaceAllAbsent(b, t, value);
  }

  /** A token between brace-free texts is kept by substitutions of other names. */
  lemma {:induction false} SubstituteKeeps(a: string, name: string, b: string, subs: seq<(string, string)>)
    requires '{' !in a && '{' !in b && IsName(name)
    requires forall i :: 0 <= i < |subs| ==> IsName(subs[i].0) && subs[i].0 != name
    ensures SubstituteAll(a + Placeholder(name) + b, subs) == a + Placeholder(name) + b
    decreases |subs|
  {
    if subs != [] {
      KeepToken(a, name, b, subs[0].0, subs[0].1);
      SubstituteKeeps(a, name, b, subs[1..]);
    }
  }

  /** A token between brace-free texts becomes the value of the first pair
      that names it, when the value has no brace either. */
  lemma SubstituteHits(a: string, name: string, b: string,
                       pre: seq<(string, string)>, value: string, post: seq<(string, string)>)
    requires '{' !in a && '{' !in b && '{' !in value && IsName(name)
    requires forall i :: 0 <= i < |pre| ==> IsName(pre[i].0) && pre[i].0 != name
    ensures SubstituteAll(a + Placeholder(name) + b, pre + [(name, value)] + post) == a + value + b
  {
    var h := a + Placeholder(name) + b;
    SubstituteAppend(h, pre + [(name, value)], post);
    SubstituteAppend(h, pre, [(name, value)]);
    SubstituteKeeps(a, name, b, pre);
    HitToken(a, name, b, value);
    assert SubstituteAll(h, pre + [(name, value)]) == a + value + b;
    SubstituteNoBrace(a + value + b, post);
  }

  /** The pairs after the first `k`, split at `k`. */
  lemma SubstituteAt(h: string, subs: seq<(string, string)>, k: nat)
    requires k < |subs|
    ensures SubstituteAll(h, subs)
      == SubstituteAll(ReplaceAll(SubstituteAll(h, subs[..k]), Placeholder(subs[k].0), subs[k].1), subs[k + 1..])
  {
    var rest := [subs[k]] + subs[k + 1..];
    assert subs == subs[..k] + rest;
    SubstituteAppend(h, subs[..k], rest);
    assert rest[0] == subs[k] && rest[1..] == subs[k + 1..];
  }

  /** Once pair `k` has filled its token, no token of that name is left if
      no value from `k` on can complete one. */
  lemma NoTokenAfter(h: string, subs: seq<(string, string)>, k: nat)
    requires k < |subs|
    requires forall i :: k <= i < |subs| ==> Safe(Placeholder(subs[k].0), subs[i].1)
    ensures !Contains(SubstituteAll(h, subs), Placeholder(subs[k].0))
  {
    var p := Placeholder(subs[k].0);
    var m := SubstituteAll(h, subs[..k]);
    SubstituteAt(h, subs, k);
    ReplaceAllAvoids(m, p, subs[k].1, p);
    var post := subs[k + 1..];
    assert forall i :: 0 <= i < |post| ==> Safe(p, post[i].1) by {
      forall i | 0 <= i < |post| ensures Safe(p, post[i].1) {
        assert post[i] == subs[k + 1 + i];
      }
    }
    SubstituteAvoids(ReplaceAll(m, p, subs[k].1), post, p);
  }

  /** A token between brace-free texts becomes the value of pair `k` when no
      earlier pair names it. */
  lemma SubstituteHitsAt(a: string, b: string, subs: seq<(string, string)>, k: nat)
    requires k < |subs| && '{' !in a && '{' !in b && '{' !in subs[k].1 && IsName(subs[k].0)
    requires forall i :: 0 <= i < k ==> IsName(subs[i].0) && subs[i].0 != subs[k].0
    ensures SubstituteAll(a + Placeholder(subs[k].0) + b, subs) == a + subs[k].1 + b
  {
    assert subs == subs[..k] + [subs[k]] + subs[k + 1..];
    SubstituteHits(a, subs[k].0, b, subs[..k], subs[k].1, subs[k + 1..]);
  }

  /** A token whose pair `k` brings in the token of pair `j`, and the values
      end up nested. */
  lemma SubstituteNestedAt(a: string, b: string, c1: string, c2: string, subs: seq<(string, string)>, k: nat, j: nat)
    requires k < j < |subs|
    requires '{' !in a && '{' !in b && '{' !in c1 && '{' !in c2 && '{' !in subs[j].1
    requires IsName(subs[k].0) && IsName(subs[j].0)
    requires subs[k].1 == c1 + Placeholder(subs[j].0) + c2
    requires forall i :: 0 <= i < k ==> IsName(subs[i].0) && subs[i].0 != subs[k].0
    requires forall i :: k < i < j ==> IsName(subs[i].0) && subs[i].0 != subs[j].0
    ensures SubstituteAll(a + Placeholder(subs[k].0) + b, subs) == (a + c1) + subs[j].1 + (c2 + b)
  {
    var pre, mid, post := subs[..k], subs[k + 1..j], subs[j + 1..];
    var left, right := subs[..k + 1], subs[k + 1..];
    assert subs == left + right;
    assert left == pre + [(subs[k].0, c1 + Placeholder(subs[j].0) + c2)];
    assert right == mid + [subs[j]] + post;
    assert forall i :: 0 <= i < |mid| ==> mid[i] == subs[k + 1 + i];
    SubstituteNested(a, subs[k].0, b, c1, subs[j].0, c2, pre, mid, subs[j].1, post);
  }

  /** A navigation class can never complete a token without a dash. */
  lemma NavClassSafe(p: string, activeNav: Option<string>, nav: string)
    requires p != [] && p[0] == '{' && p[|p| - 1] == '}' && '-' !in p
    ensures Safe(p, NavClass(activeNav, nav))
  {
    SafeByChars(p, "nav-active", '-');
    SafeByChars(p, "text-dark-200", '-');
  }

  // ---------------------------------------------------------------- templates

  /** A piece of a template or of a value: text without an opening brace, or
      a whole `{{name}}` token. */
  datatype Piece = Text(text: string) | Token(name: string)

  function RenderPiece(p: Piece): string {
    match p
    case Text(text) => text
    case Token(name) => Placeholder(name)
  }

  /** The text a sequence of pieces stands for. */
  function Render(t: seq<Piece>): string
    decreases |t|
  {
    if t == [] then [] else RenderPiece(t[0]) + Render(t[1..])
  }

  predicate PieceOk(p: Piece) {
    match p
    case Text(text) => '{' !in text
    case Token(name) => IsName(name)
  }

  /** Every opening brace of the text starts a whole token. */
  predicate WellFormed(t: seq<Piece>) {
    forall i :: 0 <= i < |t| ==> PieceOk(t[i])
  }

  lemma WellFormedTail(t: seq<Piece>)
    requires t != [] && WellFormed(t)
    ensures PieceOk(t[0]) && WellFormed(t[1..])
  {
    forall i | 0 <= i < |t[1..]| ensures PieceOk(t[1..][i]) {
      assert t[1..][i] == t[i + 1];
    }
  }

  lemma WellFormedAppend(u: seq<Piece>, w: seq<Piece>)
    requires WellFormed(u) && WellFormed(w)
    ensures WellFormed(u + w)
  {
    forall i | 0 <= i < |u + w| ensures PieceOk((u + w)[i]) {
      if i >= |u| {
        assert (u + w)[i] == w[i - |u|];
      }
    }
  }

  lemma {:induction false} RenderAppend(u: seq<Piece>, w: seq<Piece>)
    ensures Render(u + w) == Render(u) + Render(w)
    decreases |u|
  {
    if u == [] {
      assert u + w == w;
    } else {
      assert (u + w)[0] == u[0] && (u + w)[1..] == u[1..] + w;
      RenderAppend(u[1..], w);
    }
  }

  /** Replacing a token of one name leaves a token of another name whole,
      whatever follows it. */
  lemma KeepTokenBefore(other: string, z: string, name: string, value: string)
    requires IsName(name) && IsName(other) && name != other
    ensures ReplaceAll(Placeholder(other) + z, Placeholder(name), value)
      == Placeholder(other) + ReplaceAll(z, Placeholder(name), value)
  {
    var t, q := Placeholder(other), Placeholder(name);
    var m := TokensDiffer(name, other);
    var s := t + z;
    assert s[m] == t[m];
    assert !(q <= s);
    var s1 := s[1..];
    assert t[2..] == other + "}}";
    assert s1[1] == t[2] && t[2] != '{';
    assert !(q <= s1);
    var s2 := s1[1..];
    assert s2 == t[2..] + z;
    ReplaceAllPrefixFree(t[2..], z, q, value);
    assert s == [s[0]] + ([s1[0]] + s2);
    assert t == [t[0]] + ([t[1]] + t[2..]);
  }

  /** No occurrence of a token straddles the end of a piece, so replacing in
      a piece and what follows it is replacing in each. */
  lemma PieceSplit(p0: Piece, z: string, name: string, value: string)
    requires PieceOk(p0) && IsName(name)
    ensures ReplaceAll(RenderPiece(p0) + z, Placeholder(name), value)
      == ReplaceAll(RenderPiece(p0), Placeholder(name), value) + ReplaceAll(z, Placeholder(name), value)
  {
    var q := Placeholder(name);
    match p0
    case Text(x) =>
      ReplaceAllPrefixFree(x, z, q, value);
      ReplaceAllPrefixFree(x, [], q, value);
      assert x + [] == x;
    case Token(other) =>
      if other == name {
        assert (q + z)[|q|..] == z && q[|q|..] == [];
      } else {
        KeepTokenBefore(other, z, name, value);
        KeepTokenBefore(other, [], name, value);
        assert Placeholder(other) + [] == Placeholder(other);
      }
  }

  /** `str.replace` of a token distributes over a well-formed prefix and
      whatever follows it. */
  lemma {:induction false} ReplaceSplit(t: seq<Piece>, y: string, name: string, value: string)
    requires WellFormed(t) && IsName(name)
    ensures ReplaceAll(Render(t) + y, Placeholder(name), value)
      == ReplaceAll(Render(t), Placeholder(name), value) + ReplaceAll(y, Placeholder(name), value)
    decreases |t|
  {
    if t == [] {
      assert Render(t) + y == y;
    } else {
      var h, u := RenderPiece(t[0]), Render(t[1..]);
      WellFormedTail(t);
      PieceSplit(t[0], u + y, name, value);
      PieceSplit(t[0], u, name, value);
      ReplaceSplit(t[1..], y, name, value);
      SplitStep(h, u, y, Placeholder(name), value);
    }
  }

  lemma SplitStep(h: string, u: string, y: string, q: string, value: string)
    requires q != []
    requires ReplaceAll(h + (u + y), q, value) == ReplaceAll(h, q, value) + ReplaceAll(u + y, q, value)
    requires ReplaceAll(h + u, q, value) == ReplaceAll(h, q, value) + ReplaceAll(u, q, value)
    requires ReplaceAll(u + y, q, value) == ReplaceAll(u, q, value) + ReplaceAll(y, q, value)
    ensures ReplaceAll(h + u + y, q, value) == ReplaceAll(h + u, q, value) + ReplaceAll(y, q, value)
  {
    Associate(h, u, y);
    Combine(ReplaceAll(h + u + y, q, value), ReplaceAll(h + (u + y), q, value), ReplaceAll(h, q, value),
            ReplaceAll(u + y, q, value), ReplaceAll(u, q, value), ReplaceAll(y, q, value), ReplaceAll(h + u, q, value));
  }

  lemma Combine(whole: string, whole': string, rh: string, ruy: string, ru: string, ry: string, rhu: string)
    requires whole == whole' && whole' == rh + ruy && ruy == ru + ry && rhu == rh + ru
    ensures whole == rhu + ry
  {
  }

  lemma Associate(a: string, b: string, c: string)
    ensures a + (b + c) == a + b + c
  {
  }

  /** The pieces once every `{{name}}` token has become the pieces `v`. */
  function Fill(t: seq<Piece>, name: string, v: seq<Piece>): seq<Piece>
    decreases |t|
  {
    if t == [] then [] else (if t[0] == Token(name) then v else [t[0]]) + Fill(t[1..], name, v)
  }

  lemma ReplacePiece(p: Piece, name: string, v: seq<Piece>)
    requires PieceOk(p) && IsName(name)
    ensures ReplaceAll(RenderPiece(p), Placeholder(name), Render(v)) == Render(if p == Token(name) then v else [p])
  {
    var q := Placeholder(name);
    assert Render([p]) == RenderPiece(p) by {
      assert [p][1..] == [];
    }
    match p
    case Text(x) =>
      ReplaceAllPrefixFree(x, [], q, Render(v));
      assert x + [] == x;
    case Token(other) =>
      if other == name {
        assert q[|q|..] == [];
      } else {
        KeepTokenBefore(other, [], name, Render(v));
        assert Placeholder(other) + [] == Placeholder(other);
      }
  }

  /** Replacing a token by a well-formed value is filling the pieces. */
  lemma {:induction false} FillReplaces(t: seq<Piece>, name: string, v: seq<Piece>)
    requires WellFormed(t) && WellFormed(v) && IsName(name)
    ensures ReplaceAll(Render(t), Placeholder(name), Render(v)) == Render(Fill(t, name, v))
    ensures WellFormed(Fill(t, name, v))
    decreases |t|
  {
    if t != [] {
      var head := if t[0] == Token(name) then v else [t[0]];
      WellFormedTail(t);
      PieceSplit(t[0], Render(t[1..]), name, Render(v));
      ReplacePiece(t[0], name, v);
      FillReplaces(t[1..], name, v);
      RenderAppend(head, Fill(t[1..], name, v));
      WellFormedAppend(head, Fill(t[1..], name, v));
    }
  }

  /** Pairs whose values are pieces, as the text pairs they stand for. */
  function Rendered(subs: seq<(string, seq<Piece>)>): (r: seq<(string, string)>)
    ensures |r| == |subs|
    ensures forall i :: 0 <= i < |subs| ==> r[i] == (subs[i].0, Render(subs[i].1))
    decreases |subs|
  {
    if subs == [] then [] else [(subs[0].0, Render(subs[0].1))] + Rendered(subs[1..])
  }

  predicate PairsOk(subs: seq<(string, seq<Piece>)>) {
    forall i :: 0 <= i < |subs| ==> IsName(subs[i].0) && WellFormed(subs[i].1)
  }

  /** The chain of substitutions distributes over a well-formed prefix and
      whatever follows it, when every value is well-formed. */
  lemma {:induction false} SubstituteSplit(t: seq<Piece>, y: string, subs: seq<(string, seq<Piece>)>)
    requires WellFormed(t) && PairsOk(subs)
    ensures SubstituteAll(Render(t) + y, Rendered(subs))
      == SubstituteAll(Render(t), Rendered(subs)) + SubstituteAll(y, Rendered(subs))
    decreases |subs|
  {
    if subs != [] {
      var name, v := subs[0].0, subs[0].1;
      assert Rendered(subs)[1..] == Rendered(subs[1..]);
      assert PairsOk(subs[1..]) by {
        forall i | 0 <= i < |subs[1..]| ensures IsName(subs[1..][i].0) && WellFormed(subs[1..][i].1) {
          assert subs[1..][i] == subs[i + 1];
        }
      }
      ReplaceSplit(t, y, name, Render(v));
      FillReplaces(t, name, v);
      SubstituteSplit(Fill(t, name, v), ReplaceAll(y, Placeholder(name), Render(v)), subs[1..]);
    }
  }

  // ---------------------------------------------------------------- build_page

  function KnownNames(): seq<string> {
    ["page_title", "page_description", "og_title", "page_content", "page_scripts", "base"]
      + [NavName("about"), NavName("events")]
  }

  lemma KnownNamesDistinct()
    ensures forall i, j :: 0 <= i < j < |KnownNames()| ==> KnownNames()[i] != KnownNames()[j]
  {
    var n := KnownNames();
    assert n[1][0] != n[7][0] && n[3][5] != n[4][5];
  }

  /** The pairs of `build_page`, position by position. */
  lemma PageSubsNames(pageTitle: string, pageDescription: string, ogTitle: string, pageContent: string,
                      pageScripts: string, activeNav: Option<string>, isSubdir: bool)
    ensures var subs := PageSubs(pageTitle, pageDescription, ogTitle, pageContent, pageScripts, activeNav, isSubdir);
      && |subs| == 8
      && (forall i :: 0 <= i < 8 ==> subs[i].0 == KnownNames()[i] && IsName(subs[i].0))
      && subs[3].1 == pageContent && subs[5].1 == BasePath(isSubdir)
      && subs[6].1 == NavClass(activeNav, "about") && subs[7].1 == NavClass(activeNav, "events")
  {
    NavPairs(activeNav);
    KnownNamesAreNames();
  }

  lemma KnownNamesAreNames()
    ensures forall i :: 0 <= i < |KnownNames()| ==> IsName(KnownNames()[i])
  {
    assert IsName(NavName("about")) && IsName(NavName("events"));
  }

  /** The navigation loop makes one pair for each of the two entries. */
  lemma NavPairs(activeNav: Option<string>)
    ensures NavSubs(NavItems, activeNav)
      == [(NavName("about"), NavClass(activeNav, "about")), (NavName("events"), NavClass(activeNav, "events"))]
  {
  }

  /** After `build_page` no `{{base}}` is left: each became `..` in a
      sub-directory page and `.` otherwise, and no later value brings one back. */
  lemma NoBaseLeft(base: string, pageTitle: string, pageDescription: string, ogTitle: string,
                   pageContent: string, pageScripts: string, activeNav: Option<string>, isSubdir: bool)
    ensures !Contains(BuildPage(base, pageTitle, pageDescription, ogTitle, pageContent, pageScripts, activeNav, isSubdir),
                      Placeholder("base"))
  {
    var subs := PageSubs(pageTitle, pageDescription, ogTitle, pageContent, pageScripts, activeNav, isSubdir);
    var p := Placeholder("base");
    PageSubsNames(pageTitle, pageDescription, ogTitle, pageContent, pageScripts, activeNav, isSubdir);
    SafeByChars(p, BasePath(isSubdir), '.');
    NavClassSafe(p, activeNav, "about");
    NavClassSafe(p, activeNav, "events");
    NoTokenAfter(base, subs, 5);
  }

  /** After `build_page` no navigation token is left. */
  lemma NoNavTokenLeft(base: string, pageTitle: string, pageDescription: string, ogTitle: string,
                       pageContent: string, pageScripts: string, activeNav: Option<string>, isSubdir: bool, nav: string)
    requires nav in NavItems
    ensures !Contains(BuildPage(base, pageTitle, pageDescription, ogTitle, pageContent, pageScripts, activeNav, isSubdir),
                      Placeholder(NavName(nav)))
  {
    var subs := PageSubs(pageTitle, pageDescription, ogTitle, pageContent, pageScripts, activeNav, isSubdir);
    var p := Placeholder(NavName(nav));
    var k := if nav == "about" then 6 else 7;
    PageSubsNames(pageTitle, pageDescription, ogTitle, pageContent, pageScripts, activeNav, isSubdir);
    NavClassSafe(p, activeNav, "about");
    NavClassSafe(p, activeNav, "events");
    NoTokenAfter(base, subs, k);
  }

  /** A navigation token between brace-free texts becomes `nav-active` for
      the active entry and `text-dark-200` for the other. */
  lemma NavResolvedBetweenText(a: string, b: string, nav: string, pageTitle: string, pageDescription: string, ogTitle: string,
                    pageContent: string, pageScripts: string, activeNav: Option<string>, isSubdir: bool)
    requires '{' !in a && '{' !in b && nav in NavItems
    ensures BuildPage(a + Placeholder(NavName(nav)) + b, pageTitle, pageDescription, ogTitle, pageContent, pageScripts, activeNav, isSubdir)
      == a + (if activeNav == Some(nav) then "nav-active" else "text-dark-200") + b
  {
    var subs := PageSubs(pageTitle, pageDescription, ogTitle, pageContent, pageScripts, activeNav, isSubdir);
    var k := if nav == "about" then 6 else 7;
    PageSubsNames(pageTitle, pageDescription, ogTitle, pageContent, pageScripts, activeNav, isSubdir);
    KnownNamesDistinct();
    SubstituteHitsAt(a, b, subs, k);
  }

  /** A `{{base}}` of the template between brace-free texts becomes `..` in a
      sub-directory page and `.` otherwise, whatever the values hold. */
  lemma BaseResolvedBetweenText(a: string, b: string, pageTitle: string, pageDescription: string, ogTitle: string,
                                pageContent: string, pageScripts: string, activeNav: Option<string>, isSubdir: bool)
    requires '{' !in a && '{' !in b
    ensures BuildPage(a + Placeholder("base") + b, pageTitle, pageDescription, ogTitle, pageContent, pageScripts, activeNav, isSubdir)
      == a + (if isSubdir then ".." else ".") + b
  {
    PageSubsNames(pageTitle, pageDescription, ogTitle, pageContent, pageScripts, activeNav, isSubdir);
    KnownNamesDistinct();
    SubstituteHitsAt(a, b, PageSubs(pageTitle, pageDescription, ogTitle, pageContent, pageScripts, activeNav, isSubdir), 5);
  }

  /** A token the page does not fill passes through unchanged. */
  lemma UnknownTokenKeptBetweenText(a: string, name: string, b: string, pageTitle: string, pageDescription: string, ogTitle: string,
                         pageContent: string, pageScripts: string, activeNav: Option<string>, isSubdir: bool)
    requires '{' !in a && '{' !in b && IsName(name) && name !in KnownNames()
    ensures BuildPage(a + Placeholder(name) + b, pageTitle, pageDescription, ogTitle, pageContent, pageScripts, activeNav, isSubdir)
      == a + Placeholder(name) + b
  {
    PageSubsNames(pageTitle, pageDescription, ogTitle, pageContent, pageScripts, activeNav, isSubdir);
    SubstituteKeeps(a, name, b, PageSubs(pageTitle, pageDescription, ogTitle, pageContent, pageScripts, activeNav, isSubdir));
  }

  /** A token between brace-free texts becomes the value of the first pair
      that names it, whatever the value holds. */
  lemma SubstituteFills(a: string, name: string, b: string, pre: seq<(string, string)>, value: string)
    requires '{' !in a && '{' !in b && IsName(name)
    requires forall i :: 0 <= i < |pre| ==> IsName(pre[i].0) && pre[i].0 != name
    ensures SubstituteAll(a + Placeholder(name) + b, pre + [(name, value)]) == a + value + b
  {
    var h := a + Placeholder(name) + b;
    SubstituteAppend(h, pre, [(name, value)]);
    SubstituteKeeps(a, name, b, pre);
    HitToken(a, name, b, value);
    assert [(name, value)][1..] == [];
  }

  /** A token whose value carries a second token, filled by a later pair,
      ends up with both values in place. */
  lemma SubstituteNested(a: string, name: string, b: string, c1: string, inner: string, c2: string,
                         pre: seq<(string, string)>, mid: seq<(string, string)>, value: string, post: seq<(string, string)>)
    requires '{' !in a && '{' !in b && '{' !in c1 && '{' !in c2 && '{' !in value
    requires IsName(name) && IsName(inner)
    requires forall i :: 0 <= i < |pre| ==> IsName(pre[i].0) && pre[i].0 != name
    requires forall i :: 0 <= i < |mid| ==> IsName(mid[i].0) && mid[i].0 != inner
    ensures SubstituteAll(a + Placeholder(name) + b,
                          (pre + [(name, c1 + Placeholder(inner) + c2)]) + (mid + [(inner, value)] + post))
            == (a + c1) + value + (c2 + b)
  {
    var filled := c1 + Placeholder(inner) + c2;
    var first, second := pre + [(name, filled)], mid + [(inner, value)] + post;
    var h := a + Placeholder(name) + b;
    var a2, b2 := a + c1, c2 + b;
    SubstituteFills(a, name, b, pre, filled);
    Regroup(a, c1, Placeholder(inner), c2, b);
    SubstituteHits(a2, inner, b2, mid, value, post);
    SubstituteThrough(h, first, second, a2 + Placeholder(inner) + b2, a2 + value + b2);
  }

  lemma Regroup(a: string, c1: string, t: string, c2: string, b: string)
    ensures a + (c1 + t + c2) + b == (a + c1) + t + (c2 + b)
  {
  }

  lemma SubstituteThrough(h: string, first: seq<(string, string)>, second: seq<(string, string)>, m: string, out: string)
    requires SubstituteAll(h, first) == m && SubstituteAll(m, second) == out
    ensures SubstituteAll(h, first + second) == out
  {
    SubstituteAppend(h, first, second);
  }

  /** A made relative link is the `{{base}}` token before the link. */
  lemma MadeLink(c1: string, href: string, c2: string)
    requires href != [] && href[0] == '/'
    ensures c1 + Cards.MakeLink(href) + c2 == c1 + Placeholder("base") + (href + c2)
  {
    assert Cards.MakeLink(href) == Placeholder("base") + href;
  }

  /** The content is put in before `{{base}}` is resolved, so a link that
      `make_link` made relative resolves against the page's depth. */
  lemma ContentLinkResolvedBetweenText(a: string, b: string, c1: string, href: string, c2: string,
                            pageTitle: string, pageDescription: string, ogTitle: string,
                            pageScripts: string, activeNav: Option<string>, isSubdir: bool)
    requires '{' !in a && '{' !in b && '{' !in c1 && '{' !in c2 && '{' !in href
    requires href != [] && href[0] == '/'
    ensures BuildPage(a + Placeholder("page_content") + b, pageTitle, pageDescription, ogTitle,
                      c1 + Cards.MakeLink(href) + c2, pageScripts, activeNav, isSubdir)
      == a + c1 + BasePath(isSubdir) + href + c2 + b
  {
    var content := c1 + Cards.MakeLink(href) + c2;
    var subs := PageSubs(pageTitle, pageDescription, ogTitle, content, pageScripts, activeNav, isSubdir);
    MadeLink(c1, href, c2);
    PageSubsNames(pageTitle, pageDescription, ogTitle, content, pageScripts, activeNav, isSubdir);
    KnownNamesDistinct();
    assert subs[3].0 == "page_content" && subs[5].0 == "base";
    SubstituteNestedAt(a, b, c1, href + c2, subs, 3, 5);
    Flatten(a, c1, BasePath(isSubdir), href, c2, b);
  }

  lemma Flatten(a: string, c1: string, t: string, h: string, c2: string, b: string)
    ensures (a + c1) + t + ((h + c2) + b) == a + c1 + t + h + c2 + b
  {
  }

  // ---------------------------------------------------------------- build_page on well-formed templates

  /** Every opening brace of `x` starts a whole `{{name}}` token: `x` is the
      text of some well-formed pieces. */
  ghost predicate Balanced(x: string) {
    exists t :: WellFormed(t) && Render(t) == x
  }

  /** Every pair names a token and brings a balanced value. */
  ghost predicate BalancedPairs(subs: seq<(string, string)>) {
    forall i :: 0 <= i < |subs| ==> IsName(subs[i].0) && Balanced(subs[i].1)
  }

  lemma PlainBalanced(x: string)
    requires '{' !in x
    ensures Balanced(x)
  {
    assert [Text(x)][1..] == [];
    assert WellFormed([Text(x)]) && Render([Text(x)]) == x;
  }

  lemma TokenBalanced(name: string)
    requires IsName(name)
    ensures Balanced(Placeholder(name))
  {
    assert [Token(name)][1..] == [];
    assert WellFormed([Token(name)]) && Render([Token(name)]) == Placeholder(name);
  }

  lemma {:induction false} PiecesOfPairs(subs: seq<(string, string)>) returns (pieces: seq<(string, seq<Piece>)>)
    requires BalancedPairs(subs)
    ensures PairsOk(pieces) && Rendered(pieces) == subs
    decreases |subs|
  {
    if subs == [] {
      pieces := [];
    } else {
      var t :| WellFormed(t) && Render(t) == subs[0].1;
      assert BalancedPairs(subs[1..]) by {
        forall i | 0 <= i < |subs[1..]| ensures IsName(subs[1..][i].0) && Balanced(subs[1..][i].1) {
          assert subs[1..][i] == subs[i + 1];
        }
      }
      var rest := PiecesOfPairs(subs[1..]);
      pieces := [(subs[0].0, t)] + rest;
      assert pieces[1..] == rest;
      assert PairsOk(pieces) by {
        forall i | 0 <= i < |pieces| ensures IsName(pieces[i].0) && WellFormed(pieces[i].1) {
          if i > 0 {
            assert pieces[i] == rest[i - 1];
          }
        }
      }
    }
  }

  /** The chain of substitutions distributes over a balanced prefix and
      whatever follows it, when every value is balanced. */
  lemma BalancedSplit(x: string, y: string, subs: seq<(string, string)>)
    requires Balanced(x) && BalancedPairs(subs)
    ensures SubstituteAll(x + y, subs) == SubstituteAll(x, subs) + SubstituteAll(y, subs)
  {
    var t :| WellFormed(t) && Render(t) == x;
    var pieces := PiecesOfPairs(subs);
    SubstituteSplit(t, y, pieces);
  }

  /** The pairs of `build_page` that come after `{{page_content}}`. */
  function AfterContent(pageScripts: string, activeNav: Option<string>, isSubdir: bool): seq<(string, string)> {
    [("page_scripts", pageScripts), ("base", BasePath(isSubdir))] + NavSubs(NavItems, activeNav)
  }

  /** The pairs of `build_page`: the first four, then those after the content. */
  lemma PageSubsAfter(pageTitle: string, pageDescription: string, ogTitle: string, pageContent: string,
                      pageScripts: string, activeNav: Option<string>, isSubdir: bool)
    ensures PageSubs(pageTitle, pageDescription, ogTitle, pageContent, pageScripts, activeNav, isSubdir)
      == [ ("page_title", pageTitle), ("page_description", pageDescription), ("og_title", ogTitle),
           ("page_content", pageContent) ] + AfterContent(pageScripts, activeNav, isSubdir)
  {
  }

  lemma AfterContentBalanced(pageScripts: string, activeNav: Option<string>, isSubdir: bool)
    requires Balanced(pageScripts)
    ensures BalancedPairs(AfterContent(pageScripts, activeNav, isSubdir))
  {
    AfterContentShape(pageScripts, activeNav, isSubdir);
    PlainBalanced(BasePath(isSubdir));
    PlainBalanced(NavClass(activeNav, "about"));
    PlainBalanced(NavClass(activeNav, "events"));
  }

  lemma AfterContentShape(pageScripts: string, activeNav: Option<string>, isSubdir: bool)
    ensures var later := AfterContent(pageScripts, activeNav, isSubdir);
      && |later| == 4 && (forall i :: 0 <= i < 4 ==> IsName(later[i].0))
      && later[0].1 == pageScripts && later[1].1 == BasePath(isSubdir)
      && later[2].1 == NavClass(activeNav, "about") && later[3].1 == NavClass(activeNav, "events")
      && '{' !in BasePath(isSubdir) && '{' !in NavClass(activeNav, "about") && '{' !in NavClass(activeNav, "events")
  {
    NavPairs(activeNav);
    KnownNamesAreNames();
    assert KnownNames()[4] == "page_scripts" && KnownNames()[5] == "base";
    assert KnownNames()[6] == NavName("about") && KnownNames()[7] == NavName("events");
  }

  lemma PageSubsBalanced(pageTitle: string, pageDescription: string, ogTitle: string, pageContent: string,
                         pageScripts: string, activeNav: Option<string>, isSubdir: bool)
    requires Balanced(pageTitle) && Balanced(pageDescription) && Balanced(ogTitle)
    requires Balanced(pageContent) && Balanced(pageScripts)
    ensures BalancedPairs(PageSubs(pageTitle, pageDescription, ogTitle, pageContent, pageScripts, activeNav, isSubdir))
  {
    var first := [ ("page_title", pageTitle), ("page_description", pageDescription), ("og_title", ogTitle),
                   ("page_content", pageContent) ];
    var after := AfterContent(pageScripts, activeNav, isSubdir);
    PageSubsAfter(pageTitle, pageDescription, ogTitle, pageContent, pageScripts, activeNav, isSubdir);
    AfterContentBalanced(pageScripts, activeNav, isSubdir);
    KnownNamesAreNames();
    assert KnownNames()[0] == "page_title" && KnownNames()[1] == "page_description";
    assert KnownNames()[2] == "og_title" && KnownNames()[3] == "page_content";
    BalancedAppend(first, after);
  }

  lemma BalancedAppend(u: seq<(string, string)>, w: seq<(string, string)>)
    requires BalancedPairs(u) && BalancedPairs(w)
    ensures BalancedPairs(u + w)
  {
    forall i | 0 <= i < |u + w| ensures IsName((u + w)[i].0) && Balanced((u + w)[i].1) {
      if i >= |u| {
        assert (u + w)[i] == w[i - |u|];
      }
    }
  }

  /** `build_page` distributes over a balanced prefix of the template and
      whatever follows it, when every value is balanced: no token is cut in
      two and no value completes a token with the text around it. */
  lemma BuildPageSplit(x: string, y: string, pageTitle: string, pageDescription: string, ogTitle: string,
                       pageContent: string, pageScripts: string, activeNav: Option<string>, isSubdir: bool)
    requires Balanced(x) && Balanced(pageTitle) && Balanced(pageDescription) && Balanced(ogTitle)
    requires Balanced(pageContent) && Balanced(pageScripts)
    ensures BuildPage(x + y, pageTitle, pageDescription, ogTitle, pageContent, pageScripts, activeNav, isSubdir)
      == BuildPage(x, pageTitle, pageDescription, ogTitle, pageContent, pageScripts, activeNav, isSubdir)
         + BuildPage(y, pageTitle, pageDescription, ogTitle, pageContent, pageScripts, activeNav, isSubdir)
  {
    PageSubsBalanced(pageTitle, pageDescription, ogTitle, pageContent, pageScripts, activeNav, isSubdir);
    BalancedSplit(x, y, PageSubs(pageTitle, pageDescription, ogTitle, pageContent, pageScripts, activeNav, isSubdir));
  }

  /** A template split around one token: `build_page` of the whole is
      `build_page` of the text before it, of the token, and of the text after. */
  lemma BuildPageAround(a: string, name: string, b: string, pageTitle: string, pageDescription: string, ogTitle: string,
                        pageContent: string, pageScripts: string, activeNav: Option<string>, isSubdir: bool)
    requires Balanced(a) && IsName(name) && Balanced(pageTitle) && Balanced(pageDescription) && Balanced(ogTitle)
    requires Balanced(pageContent) && Balanced(pageScripts)
    ensures BuildPage(a + Placeholder(name) + b, pageTitle, pageDescription, ogTitle, pageContent, pageScripts, activeNav, isSubdir)
      == BuildPage(a, pageTitle, pageDescription, ogTitle, pageContent, pageScripts, activeNav, isSubdir)
         + BuildPage(Placeholder(name), pageTitle, pageDescription, ogTitle, pageContent, pageScripts, activeNav, isSubdir)
         + BuildPage(b, pageTitle, pageDescription, ogTitle, pageContent, pageScripts, activeNav, isSubdir)
  {
    var p := Placeholder(name);
    TokenBalanced(name);
    assert a + p + b == a + (p + b);
    BuildPageSplit(a, p + b, pageTitle, pageDescription, ogTitle, pageContent, pageScripts, activeNav, isSubdir);
    BuildPageSplit(p, b, pageTitle, pageDescription, ogTitle, pageContent, pageScripts, activeNav, isSubdir);
  }

  /** A navigation token after any balanced text becomes `nav-active` for the
      active entry and `text-dark-200` for the other, and the texts around it
      are built as if each stood alone. */
  lemma NavResolved(a: string, b: string, nav: string, pageTitle: string, pageDescription: string, ogTitle: string,
                    pageContent: string, pageScripts: string, activeNav: Option<string>, isSubdir: bool)
    requires Balanced(a) && nav in NavItems && Balanced(pageTitle) && Balanced(pageDescription) && Balanced(ogTitle)
    requires Balanced(pageContent) && Balanced(pageScripts)
    ensures BuildPage(a + Placeholder(NavName(nav)) + b, pageTitle, pageDescription, ogTitle, pageContent, pageScripts, activeNav, isSubdir)
      == BuildPage(a, pageTitle, pageDescription, ogTitle, pageContent, pageScripts, activeNav, isSubdir)
         + NavClass(activeNav, nav)
         + BuildPage(b, pageTitle, pageDescription, ogTitle, pageContent, pageScripts, activeNav, isSubdir)
  {
    NavAlone(nav, pageTitle, pageDescription, ogTitle, pageContent, pageScripts, activeNav, isSubdir);
    TokenPlaced(a, NavName(nav), b, pageTitle, pageDescription, ogTitle, pageContent, pageScripts, activeNav, isSubdir,
                NavClass(activeNav, nav));
  }

  /** A token after balanced text, once it is known what it becomes alone. */
  lemma TokenPlaced(a: string, name: string, b: string, pageTitle: string, pageDescription: string, ogTitle: string,
                    pageContent: string, pageScripts: string, activeNav: Option<string>, isSubdir: bool, value: string)
    requires Balanced(a) && IsName(name) && Balanced(pageTitle) && Balanced(pageDescription) && Balanced(ogTitle)
    requires Balanced(pageContent) && Balanced(pageScripts)
    requires BuildPage(Placeholder(name), pageTitle, pageDescription, ogTitle, pageContent, pageScripts, activeNav, isSubdir) == value
    ensures BuildPage(a + Placeholder(name) + b, pageTitle, pageDescription, ogTitle, pageContent, pageScripts, activeNav, isSubdir)
      == BuildPage(a, pageTitle, pageDescription, ogTitle, pageContent, pageScripts, activeNav, isSubdir)
         + value
         + BuildPage(b, pageTitle, pageDescription, ogTitle, pageContent, pageScripts, activeNav, isSubdir)
  {
    BuildPageAround(a, name, b, pageTitle, pageDescription, ogTitle, pageContent, pageScripts, activeNav, isSubdir);
  }

  lemma NavAlone(nav: string, pageTitle: string, pageDescription: string, ogTitle: string,
                 pageContent: string, pageScripts: string, activeNav: Option<string>, isSubdir: bool)
    requires nav in NavItems
    ensures IsName(NavName(nav))
    ensures BuildPage(Placeholder(NavName(nav)), pageTitle, pageDescription, ogTitle, pageContent, pageScripts, activeNav, isSubdir)
      == NavClass(activeNav, nav)
  {
    NavNameIsName(nav);
    NavResolvedBetweenText([], [], nav, pageTitle, pageDescription, ogTitle, pageContent, pageScripts, activeNav, isSubdir);
    EmptyEnds(Placeholder(NavName(nav)));
    EmptyEnds(NavClass(activeNav, nav));
  }

  /** A `{{base}}` of the template after any balanced text becomes `..` in a
      sub-directory page and `.` otherwise, and the texts around it are built
      as if each stood alone. */
  lemma BaseResolved(a: string, b: string, pageTitle: string, pageDescription: string, ogTitle: string,
                     pageContent: string, pageScripts: string, activeNav: Option<string>, isSubdir: bool)
    requires Balanced(a) && Balanced(pageTitle) && Balanced(pageDescription) && Balanced(ogTitle)
    requires Balanced(pageContent) && Balanced(pageScripts)
    ensures BuildPage(a + Placeholder("base") + b, pageTitle, pageDescription, ogTitle, pageContent, pageScripts, activeNav, isSubdir)
      == BuildPage(a, pageTitle, pageDescription, ogTitle, pageContent, pageScripts, activeNav, isSubdir)
         + (if isSubdir then ".." else ".")
         + BuildPage(b, pageTitle, pageDescription, ogTitle, pageContent, pageScripts, activeNav, isSubdir)
  {
    BaseAlone(pageTitle, pageDescription, ogTitle, pageContent, pageScripts, activeNav, isSubdir);
    TokenPlaced(a, "base", b, pageTitle, pageDescription, ogTitle, pageContent, pageScripts, activeNav, isSubdir,
                BasePath(isSubdir));
  }

  lemma BaseAlone(pageTitle: string, pageDescription: string, ogTitle: string,
                  pageContent: string, pageScripts: string, activeNav: Option<string>, isSubdir: bool)
    ensures IsName("base")
    ensures BuildPage(Placeholder("base"), pageTitle, pageDescription, ogTitle, pageContent, pageScripts, activeNav, isSubdir)
      == BasePath(isSubdir)
  {
    BaseResolvedBetweenText([], [], pageTitle, pageDescription, ogTitle, pageContent, pageScripts, activeNav, isSubdir);
    EmptyEnds(Placeholder("base"));
    EmptyEnds(BasePath(isSubdir));
  }

  lemma NavNameIsName(nav: string)
    requires nav in NavItems
    ensures IsName(NavName(nav))
  {
  }

  lemma EmptyEnds(x: string)
    ensures [] + x + [] == x
  {
  }

  /** A token the page does not fill, after any balanced text, passes through
      unchanged. */
  lemma UnknownTokenKept(a: string, name: string, b: string, pageTitle: string, pageDescription: string, ogTitle: string,
                         pageContent: string, pageScripts: string, activeNav: Option<string>, isSubdir: bool)
    requires Balanced(a) && IsName(name) && name !in KnownNames()
    requires Balanced(pageTitle) && Balanced(pageDescription) && Balanced(ogTitle)
    requires Balanced(pageContent) && Balanced(pageScripts)
    ensures BuildPage(a + Placeholder(name) + b, pageTitle, pageDescription, ogTitle, pageContent, pageScripts, activeNav, isSubdir)
      == BuildPage(a, pageTitle, pageDescription, ogTitle, pageContent, pageScripts, activeNav, isSubdir)
         + Placeholder(name)
         + BuildPage(b, pageTitle, pageDescription, ogTitle, pageContent, pageScripts, activeNav, isSubdir)
  {
    var p := Placeholder(name);
    BuildPageAround(a, name, b, pageTitle, pageDescription, ogTitle, pageContent, pageScripts, activeNav, isSubdir);
    UnknownTokenKeptBetweenText("", name, "", pageTitle, pageDescription, ogTitle, pageContent, pageScripts, activeNav, isSubdir);
    assert "" + p + "" == p;
  }

  /** The content is put in before `{{base}}` is resolved, so a link that
      `make_link` made relative resolves against the page's depth, wherever
      the content token sits after balanced text and whatever balanced text
      surrounds the link; that text goes through the substitutions that
      follow the content, and only those. */
  lemma ContentLinkResolved(a: string, b: string, c1: string, href: string, c2: string,
                            pageTitle: string, pageDescription: string, ogTitle: string,
                            pageScripts: string, activeNav: Option<string>, isSubdir: bool)
    requires Balanced(a) && Balanced(c1) && Balanced(c2) && '{' !in href && href != [] && href[0] == '/'
    requires Balanced(pageTitle) && Balanced(pageDescription) && Balanced(ogTitle) && Balanced(pageScripts)
    ensures var content := c1 + Cards.MakeLink(href) + c2;
      var later := AfterContent(pageScripts, activeNav, isSubdir);
      BuildPage(a + Placeholder("page_content") + b, pageTitle, pageDescription, ogTitle, content, pageScripts, activeNav, isSubdir)
        == BuildPage(a, pageTitle, pageDescription, ogTitle, content, pageScripts, activeNav, isSubdir)
           + SubstituteAll(c1, later) + BasePath(isSubdir) + href + SubstituteAll(c2, later)
           + BuildPage(b, pageTitle, pageDescription, ogTitle, content, pageScripts, activeNav, isSubdir)
  {
    var content := c1 + Cards.MakeLink(href) + c2;
    assert IsName("page_content");
    ContentAlone("page_content", pageTitle, pageDescription, ogTitle, content, pageScripts, activeNav, isSubdir);
    LinkPlaced(a, "page_content", b, c1, href, c2, pageTitle, pageDescription, ogTitle, pageScripts, activeNav, isSubdir);
  }

  /** A content token after balanced text, once it is known to become the
      content run through the pairs after it. */
  lemma LinkPlaced(a: string, name: string, b: string, c1: string, href: string, c2: string,
                   pageTitle: string, pageDescription: string, ogTitle: string,
                   pageScripts: string, activeNav: Option<string>, isSubdir: bool)
    requires IsName(name) && Balanced(a) && Balanced(c1) && Balanced(c2) && '{' !in href && href != [] && href[0] == '/'
    requires Balanced(pageTitle) && Balanced(pageDescription) && Balanced(ogTitle) && Balanced(pageScripts)
    requires var content := c1 + Cards.MakeLink(href) + c2;
      BuildPage(Placeholder(name), pageTitle, pageDescription, ogTitle, content, pageScripts, activeNav, isSubdir)
        == SubstituteAll(content, AfterContent(pageScripts, activeNav, isSubdir))
    ensures var content := c1 + Cards.MakeLink(href) + c2;
      var later := AfterContent(pageScripts, activeNav, isSubdir);
      BuildPage(a + Placeholder(name) + b, pageTitle, pageDescription, ogTitle, content, pageScripts, activeNav, isSubdir)
        == BuildPage(a, pageTitle, pageDescription, ogTitle, content, pageScripts, activeNav, isSubdir)
           + SubstituteAll(c1, later) + BasePath(isSubdir) + href + SubstituteAll(c2, later)
           + BuildPage(b, pageTitle, pageDescription, ogTitle, content, pageScripts, activeNav, isSubdir)
  {
    var link := Cards.MakeLink(href);
    var later := AfterContent(pageScripts, activeNav, isSubdir);
    LinkedContentBalanced(c1, href, c2);
    LinkedContentResolved(c1, href, c2, pageScripts, activeNav, isSubdir);
    PlacedAt(a, name, b, pageTitle, pageDescription, ogTitle, c1 + link + c2, pageScripts, activeNav, isSubdir,
             SubstituteAll(c1, later), BasePath(isSubdir), href, SubstituteAll(c2, later));
  }

  /** A token after balanced text whose own value is known. */
  lemma PlacedAt(a: string, name: string, b: string, pageTitle: string, pageDescription: string, ogTitle: string,
                 pageContent: string, pageScripts: string, activeNav: Option<string>, isSubdir: bool,
                 s1: string, root: string, href: string, s3: string)
    requires IsName(name) && Balanced(a) && Balanced(pageContent)
    requires Balanced(pageTitle) && Balanced(pageDescription) && Balanced(ogTitle) && Balanced(pageScripts)
    requires BuildPage(Placeholder(name), pageTitle, pageDescription, ogTitle, pageContent, pageScripts, activeNav, isSubdir)
      == s1 + (root + href) + s3
    ensures BuildPage(a + Placeholder(name) + b, pageTitle, pageDescription, ogTitle, pageContent, pageScripts, activeNav, isSubdir)
      == BuildPage(a, pageTitle, pageDescription, ogTitle, pageContent, pageScripts, activeNav, isSubdir)
         + s1 + root + href + s3
         + BuildPage(b, pageTitle, pageDescription, ogTitle, pageContent, pageScripts, activeNav, isSubdir)
  {
    BuildPageAround(a, name, b, pageTitle, pageDescription, ogTitle, pageContent, pageScripts, activeNav, isSubdir);
    Assemble(BuildPage(a + Placeholder(name) + b, pageTitle, pageDescription, ogTitle, pageContent, pageScripts, activeNav, isSubdir),
             BuildPage(a, pageTitle, pageDescription, ogTitle, pageContent, pageScripts, activeNav, isSubdir),
             BuildPage(Placeholder(name), pageTitle, pageDescription, ogTitle, pageContent, pageScripts, activeNav, isSubdir),
             BuildPage(b, pageTitle, pageDescription, ogTitle, pageContent, pageScripts, activeNav, isSubdir),
             s1, root + href, s3, root, href);
  }

  lemma LinkedContentBalanced(c1: string, href: string, c2: string)
    requires Balanced(c1) && Balanced(c2) && '{' !in href && href != [] && href[0] == '/'
    ensures Balanced(c1 + Cards.MakeLink(href) + c2)
  {
    LinkBalanced(href);
    BalancedConcat(c1, Cards.MakeLink(href));
    BalancedConcat(c1 + Cards.MakeLink(href), c2);
  }

  /** Content with a made link, through the pairs after the content: the
      link resolves and the texts around it are substituted on their own. */
  lemma LinkedContentResolved(c1: string, href: string, c2: string, pageScripts: string, activeNav: Option<string>, isSubdir: bool)
    requires Balanced(c1) && Balanced(c2) && '{' !in href && href != [] && href[0] == '/' && Balanced(pageScripts)
    ensures var later := AfterContent(pageScripts, activeNav, isSubdir);
      && SubstituteAll(c1 + Cards.MakeLink(href) + c2, later)
         == SubstituteAll(c1, later) + SubstituteAll(Cards.MakeLink(href), later) + SubstituteAll(c2, later)
      && SubstituteAll(Cards.MakeLink(href), later) == BasePath(isSubdir) + href
  {
    LinkBalanced(href);
    AfterContentBalanced(pageScripts, activeNav, isSubdir);
    MiddleResolved(c1, Cards.MakeLink(href), c2, AfterContent(pageScripts, activeNav, isSubdir));
    LinkAlone(href, pageScripts, activeNav, isSubdir);
  }

  lemma Assemble(whole: string, left: string, mid: string, right: string,
                 s1: string, s2: string, s3: string, root: string, href: string)
    requires whole == left + mid + right && mid == s1 + s2 + s3 && s2 == root + href
    ensures whole == left + s1 + root + href + s3 + right
  {
  }

  lemma BalancedConcat(x: string, y: string)
    requires Balanced(x) && Balanced(y)
    ensures Balanced(x + y)
  {
    var t :| WellFormed(t) && Render(t) == x;
    var u :| WellFormed(u) && Render(u) == y;
    WellFormedAppend(t, u);
    RenderAppend(t, u);
  }

  lemma RenderText(x: string)
    ensures Render([Text(x)]) == x
  {
    assert [Text(x)][1..] == [];
  }

  /** A made link is the `{{base}}` token before the brace-free path. */
  lemma LinkBalanced(href: string)
    requires '{' !in href && href != [] && href[0] == '/'
    ensures Balanced(Cards.MakeLink(href))
  {
    assert IsName("base");
    TokenBalanced("base");
    PlainBalanced(href);
    BalancedConcat(Placeholder("base"), href);
    MadeLink([], href, []);
    EmptyEnds(Cards.MakeLink(href));
    EmptyFront(Placeholder("base"), href);
  }

  /** A balanced value between balanced texts, through balanced pairs. */
  lemma MiddleResolved(c1: string, m: string, c2: string, subs: seq<(string, string)>)
    requires Balanced(c1) && Balanced(m) && BalancedPairs(subs)
    ensures SubstituteAll(c1 + m + c2, subs) == SubstituteAll(c1, subs) + SubstituteAll(m, subs) + SubstituteAll(c2, subs)
  {
    assert c1 + m + c2 == c1 + (m + c2);
    BalancedSplit(c1, m + c2, subs);
    BalancedSplit(m, c2, subs);
  }

  /** A made link alone, through the pairs after the content: the page's
      relative root before the path. */
  lemma LinkAlone(href: string, pageScripts: string, activeNav: Option<string>, isSubdir: bool)
    requires '{' !in href && href != [] && href[0] == '/'
    ensures SubstituteAll(Cards.MakeLink(href), AfterContent(pageScripts, activeNav, isSubdir)) == BasePath(isSubdir) + href
  {
    var later := AfterContent(pageScripts, activeNav, isSubdir);
    AfterContentNames(pageScripts, activeNav, isSubdir);
    SecondFills(href, later);
    MadeLink([], href, []);
    EmptyEnds(Cards.MakeLink(href));
    EmptyFront(Placeholder("base"), href);
  }

  lemma AfterContentNames(pageScripts: string, activeNav: Option<string>, isSubdir: bool)
    ensures var later := AfterContent(pageScripts, activeNav, isSubdir);
      && |later| >= 2 && IsName(later[0].0) && IsName(later[1].0) && later[0].0 != later[1].0
      && later[1] == ("base", BasePath(isSubdir)) && '{' !in BasePath(isSubdir)
  {
  }

  /** A token before brace-free text, filled by the second pair with a
      brace-free value, the first pair naming another token. */
  lemma SecondFills(href: string, subs: seq<(string, string)>)
    requires '{' !in href && |subs| >= 2 && '{' !in subs[1].1
    requires IsName(subs[0].0) && IsName(subs[1].0) && subs[0].0 != subs[1].0
    ensures SubstituteAll(Placeholder(subs[1].0) + href, subs) == subs[1].1 + href
  {
    SubstituteHitsAt([], href, subs, 1);
    EmptyFront(Placeholder(subs[1].0), href);
    EmptyFront(subs[1].1, href);
  }

  lemma EmptyFront(x: string, y: string)
    ensures [] + x + y == x + y
  {
  }

  /** The content token alone becomes the content after the substitutions
      that follow it. */
  lemma ContentAlone(name: string, pageTitle: string, pageDescription: string, ogTitle: string, pageContent: string,
                     pageScripts: string, activeNav: Option<string>, isSubdir: bool)
    requires name == "page_content"
    ensures BuildPage(Placeholder(name), pageTitle, pageDescription, ogTitle, pageContent, pageScripts, activeNav, isSubdir)
      == SubstituteAll(pageContent, AfterContent(pageScripts, activeNav, isSubdir))
  {
    var pre := [("page_title", pageTitle), ("page_description", pageDescription), ("og_title", ogTitle)];
    PageSubsAfter(pageTitle, pageDescription, ogTitle, pageContent, pageScripts, activeNav, isSubdir);
    assert pre + [(name, pageContent)]
      == [ ("page_title", pageTitle), ("page_description", pageDescription), ("og_title", ogTitle),
           ("page_content", pageContent) ];
    assert IsName(name) && IsName("page_title") && IsName("page_description") && IsName("og_title");
    TokenFilledFirst(pre, name, pageContent, AfterContent(pageScripts, activeNav, isSubdir));
  }

  /** A token alone, filled by a pair no earlier pair shares its name with,
      becomes that value run through the pairs after it. */
  lemma TokenFilledFirst(pre: seq<(string, string)>, name: string, value: string, post: seq<(string, string)>)
    requires IsName(name)
    requires forall i :: 0 <= i < |pre| ==> IsName(pre[i].0) && pre[i].0 != name
    ensures SubstituteAll(Placeholder(name), pre + [(name, value)] + post) == SubstituteAll(value, post)
  {
    var p := Placeholder(name);
    SubstituteAppend(p, pre + [(name, value)], post);
    SubstituteFills("", name, "", pre, value);
    assert "" + p + "" == p && "" + value + "" == value;
  }
}
