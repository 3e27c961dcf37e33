/**
  The string primitives the build script leans on, as Python defines them:
  `str.strip()`, `str.split('\n')`, `sep.join(parts)`, `str.lower()` and
  `str.replace(old, new)`.
 */
module Text {

  /** The characters Python's `str.isspace` accepts; `str.strip()` and the
      regular-expression class `\s` on text use the same set. */
  predicate IsWs(c: char) {
    || c == ' '
    || '\t' <= c <= '\r'
    || '\U{1C}' <= c <= '\U{1F}'
    || c == '\U{85}' || c == '\U{A0}' || c == '\U{1680}'
    || '\U{2000}' <= c <= '\U{200A}'
    || c == '\U{2028}' || c == '\U{2029}' || c == '\U{202F}' || c == '\U{205F}' || c == '\U{3000}'
  }

  predicate AllWs(s: string) {
    forall i :: 0 <= i < |s| ==> IsWs(s[i])
  }

  /** Neither end of `s` is whitespace. */
  predicate Stripped(s: string) {
    s == [] || (!IsWs(s[0]) && !IsWs(s[|s| - 1]))
  }

  /** `s.lstrip()`: the longest suffix of `s` that does not start with whitespace. */
  function TrimLeft(s: string): (r: string)
    ensures |r| <= |s|
    ensures r == [] || !IsWs(r[0])
  {
    if s != [] && IsWs(s[0]) then TrimLeft(s[1..]) else s
  }

  /** `TrimLeft` removes a whitespace prefix and keeps the rest as it is. */
  lemma {:induction false} TrimLeftShape(s: string)
    ensures TrimLeft(s) == s[|s| - |TrimLeft(s)|..]
    ensures AllWs(s[..|s| - |TrimLeft(s)|])
  {
    if s != [] && IsWs(s[0]) {
      TrimLeftShape(s[1..]);
      var k := |s| - |TrimLeft(s)|;
      assert s[1..][k - 1..] == s[k..];
      forall m | 0 <= m < k ensures IsWs(s[..k][m]) {
        if m > 0 {
          assert s[..k][m] == s[1..][..k - 1][m - 1];
        }
      }
    }
  }

  /** `s.rstrip()`: the longest prefix of `s` that does not end with whitespace. */
  function TrimRight(s: string): (r: string)
    ensures |r| <= |s|
    ensures r == [] || (r[0] == s[0] && !IsWs(r[|r| - 1]))
  {
    if s != [] && IsWs(s[|s| - 1]) then TrimRight(s[..|s| - 1]) else s
  }

  /** `TrimRight` removes a whitespace suffix and keeps the rest as it is. */
  lemma {:induction false} TrimRightShape(s: string)
    ensures TrimRight(s) == s[..|TrimRight(s)|]
    ensures AllWs(s[|TrimRight(s)|..])
  {
    if s != [] && IsWs(s[|s| - 1]) {
      var t := s[..|s| - 1];
      TrimRightShape(t);
      var k := |TrimRight(s)|;
      assert t[..k] == s[..k];
      forall d | 0 <= d < |s| - k ensures IsWs(s[k..][d]) {
        if d < |s| - 1 - k {
          assert s[k..][d] == t[k..][d];
        }
      }
    }
  }

  /** `s.strip()`: `s` without its leading and trailing whitespace. */
  function Strip(s: string): (r: string)
    ensures Stripped(r) && |r| <= |s|
  {
    TrimRight(TrimLeft(s))
  }

  /** `u` is the slice of `s` starting at `i`, with only whitespace before
      and after it. */
  predicate StripsTo(s: string, i: nat, u: string) {
    i + |u| <= |s| && u == s[i..i + |u|] && AllWs(s[..i]) && AllWs(s[i + |u|..])
  }

  /** What `Strip` removes is whitespace at the two ends, and nothing else. */
  lemma StripShape(s: string)
    ensures StripsTo(s, |s| - |TrimLeft(s)|, Strip(s))
  {
    var t := TrimLeft(s);
    TrimLeftShape(s);
    TrimRightShape(t);
    KeptSlice(s, t, TrimRight(t), |s| - |t|);
  }

  /** A prefix `u` of the suffix `t` of `s` that starts at `i` is a slice of `s`,
      and what follows `u` in `t` is what follows it in `s`. */
  lemma KeptSlice(s: string, t: string, u: string, i: nat)
    requires i <= |s| && t == s[i..] && AllWs(s[..i])
    requires |u| <= |t| && u == t[..|u|] && AllWs(t[|u|..])
    ensures StripsTo(s, i, u)
  {
    SliceOfSuffix(s, i, |u|);
  }

  lemma SliceOfSuffix(s: string, i: nat, n: nat)
    requires i + n <= |s|
    ensures s[i..][..n] == s[i..i + n] && s[i..][n..] == s[i + n..]
  {
  }

  lemma StripOfStripped(s: string)
    requires Stripped(s)
    ensures Strip(s) == s
  {
    assert TrimLeft(s) == s;
  }

  lemma {:induction false} TrimLeftAllWs(s: string)
    requires AllWs(s)
    ensures TrimLeft(s) == []
  {
    if s != [] {
      TrimLeftAllWs(s[1..]);
    }
  }

  /** Stripping empties a string exactly when it is all whitespace. */
  lemma StripEmptyIff(s: string)
    ensures Strip(s) == [] <==> AllWs(s)
  {
    if AllWs(s) {
      TrimLeftAllWs(s);
    }
    if Strip(s) == [] {
      StripShape(s);
      var i := |s| - |TrimLeft(s)|;
      forall k | 0 <= k < |s| ensures IsWs(s[k]) {
        if k < i {
          assert s[k] == s[..i][k];
        } else {
          assert s[k] == s[i..][k - i];
        }
      }
    }
  }

  lemma StripIdempotent(s: string)
    ensures Strip(Strip(s)) == Strip(s)
  {
    StripOfStripped(Strip(s));
  }

  /** ASCII `str.lower()` of one character. */
  function LowerChar(c: char): char {
    if IsUpper(c) then (c as int + 32) as char else c
  }

  /** `s.lower()`, restricted to the ASCII letters. */
  function Lower(s: string): (r: string)
    ensures |r| == |s| && forall i :: 0 <= i < |s| ==> r[i] == LowerChar(s[i])
    ensures forall i :: 0 <= i < |r| ==> !IsUpper(r[i])
    ensures (forall i :: 0 <= i < |s| ==> !IsUpper(s[i])) ==> r == s
  {
    seq(|s|, i requires 0 <= i < |s| => LowerChar(s[i]))
  }

  predicate IsUpper(c: char) {
    'A' <= c <= 'Z'
  }

  /** Lowering a lowered text changes nothing. */
  lemma LowerIdempotent(s: string)
    ensures Lower(Lower(s)) == Lower(s)
  {
    var t := Lower(s);
    assert forall i :: 0 <= i < |t| ==> !IsUpper(t[i]);
  }

  /** `s.split(sep)` for a one-character separator: the pieces between the
      separators, always at least one. */
  function Split(s: string, sep: char): (r: seq<string>)
    ensures |r| >= 1
    ensures forall i :: 0 <= i < |r| ==> sep !in r[i]
  {
    if s == [] then [[]]
    else if s[0] == sep then [[]] + Split(s[1..], sep)
    else
      var rest := Split(s[1..], sep);
      [[s[0]] + rest[0]] + rest[1..]
  }

  /** `sep.join(parts)`. */
  function Join(parts: seq<string>, sep: string): string {
    if |parts| == 0 then []
    else if |parts| == 1 then parts[0]
    else parts[0] + sep + Join(parts[1..], sep)
  }

  /** `text.strip().split('\n')`: the lines of a text without its outer
      whitespace. */
  function Lines(text: string): seq<string> {
    Split(Strip(text), '\n')
  }

  /** Joining two non-empty runs of parts puts one separator between them. */
  lemma {:induction false} JoinAppend(a: seq<string>, b: seq<string>, sep: string)
    requires a != [] && b != []
    ensures Join(a + b, sep) == Join(a, sep) + sep + Join(b, sep)
  {
    if |a| > 1 {
      JoinAppend(a[1..], b, sep);
      assert (a + b)[1..] == a[1..] + b;
    } else {
      assert (a + b)[1..] == b;
    }
  }

  /** Joining the pieces of a split with its separator gives back the text. */
  lemma {:induction false} JoinSplit(s: string, sep: char)
    ensures Join(Split(s, sep), [sep]) == s
  {
    if s == [] {
    } else if s[0] == sep {
      JoinSplit(s[1..], sep);
      assert Split(s, sep)[1..] == Split(s[1..], sep);
    } else {
      var rest := Split(s[1..], sep);
      JoinSplit(s[1..], sep);
      var r := Split(s, sep);
      assert r[1..] == rest[1..];
      if |rest| > 1 {
        assert Join(rest, [sep]) == rest[0] + [sep] + Join(rest[1..], [sep]);
      }
    }
  }

  lemma {:induction false} SplitWithout(w: string, sep: char)
    requires sep !in w
    ensures Split(w, sep) == [w]
  {
    if w != [] {
      SplitWithout(w[1..], sep);
      assert w == [w[0]] + w[1..];
    }
  }

  lemma {:induction false} SplitAfter(w: string, t: string, sep: char)
    requires sep !in w
    ensures Split(w + [sep] + t, sep) == [w] + Split(t, sep)
  {
    var s := w + [sep] + t;
    if w == [] {
      assert s[0] == sep && s[1..] == t;
    } else {
      SplitAfter(w[1..], t, sep);
      assert s[0] == w[0] && s[1..] == w[1..] + [sep] + t;
      assert w == [w[0]] + w[1..];
    }
  }

  /** Splitting pieces joined by a separator none of them contains gives back
      the pieces. */
  lemma {:induction false} SplitJoin(parts: seq<string>, sep: char)
    requires |parts| >= 1
    requires forall i :: 0 <= i < |parts| ==> sep !in parts[i]
    ensures Split(Join(parts, [sep]), sep) == parts
  {
    if |parts| == 1 {
      SplitWithout(parts[0], sep);
    } else {
      var rest := Join(parts[1..], [sep]);
      assert Join(parts, [sep]) == parts[0] + [sep] + rest;
      SplitJoin(parts[1..], sep);
      SplitAfter(parts[0], rest, sep);
      assert parts == [parts[0]] + parts[1..];
    }
  }

  /** Cutting a text at three points and joining the pieces gives it back. */
  lemma FourPieces(s: string, i: nat, j: nat, k: nat)
    requires i <= j <= k <= |s|
    ensures s == s[..i] + s[i..j] + s[j..k] + s[k..]
  {
  }

  /** `p` occurs in `s` starting at index `i`. */
  predicate OccursAt(s: string, p: string, i: int) {
    0 <= i <= |s| && p <= s[i..]
  }

  /** Python's `p in s`. */
  predicate Contains(s: string, p: string) {
    exists i :: 0 <= i <= |s| && OccursAt(s, p, i)
  }

  lemma ContainsByChar(s: string, p: string, c: char)
    requires c in p && c !in s
    ensures !Contains(s, p)
  {
  }

  lemma NotContainsDrop(s: string, p: string, k: nat)
    requires k <= |s| && !Contains(s, p)
    ensures !Contains(s[k..], p)
  {
    if Contains(s[k..], p) {
      var i :| 0 <= i <= |s[k..]| && OccursAt(s[k..], p, i);
      assert s[k..][i..] == s[i + k..];
      assert OccursAt(s, p, i + k);
    }
  }

  /** `s.replace(p, r)` for a non-empty `p`: the leftmost occurrence is
      replaced, scanning resumes after it, and so on to the end. */
  function ReplaceAll(s: string, p: string, r: string): string
    requires p != []
    decreases |s|
  {
    if p <= s then r + ReplaceAll(s[|p|..], p, r)
    else if s == [] then []
    else [s[0]] + ReplaceAll(s[1..], p, r)
  }

  /** A text without the pattern passes through unchanged. */
  lemma {:induction false} ReplaceAllAbsent(s: string, p: string, r: string)
    requires p != [] && !Contains(s, p)
    ensures ReplaceAll(s, p, r) == s
    decreases |s|
  {
    if p <= s {
      assert OccursAt(s, p, 0);
    } else if s != [] {
      NotContainsDrop(s, p, 1);
      ReplaceAllAbsent(s[1..], p, r);
      assert ReplaceAll(s, p, r) == [s[0]] + ReplaceAll(s[1..], p, r);
      assert s == [s[0]] + s[1..];
    }
  }

  /** A prefix free of the pattern's first character is copied unchanged. */
  lemma {:induction false} ReplaceAllPrefixFree(a: string, x: string, p: string, r: string)
    requires p != [] && p[0] !in a
    ensures ReplaceAll(a + x, p, r) == a + ReplaceAll(x, p, r)
  {
    if a != [] {
      assert (a + x)[0] == a[0] && (a + x)[1..] == a[1..] + x;
      assert ReplaceAll(a + x, p, r) == [a[0]] + ReplaceAll(a[1..] + x, p, r);
      ReplaceAllPrefixFree(a[1..], x, p, r);
      assert a == [a[0]] + a[1..];
      assert [a[0]] + (a[1..] + ReplaceAll(x, p, r)) == a + ReplaceAll(x, p, r);
    } else {
      assert a + x == x;
    }
  }

  /** Each prefix of a replaced text is either the same prefix of the input,
      or contains the start of an inserted replacement. */
  lemma {:induction false} PrefixOrReplacement(s: string, q: string, r: string, k: nat)
    requires q != [] && k <= |ReplaceAll(s, q, r)|
    ensures || (k <= |s| && ReplaceAll(s, q, r)[..k] == s[..k])
            || exists j :: 0 <= j < k && OccursAt(ReplaceAll(s, q, r), r, j)
    decreases |s|
  {
    var t := ReplaceAll(s, q, r);
    if k == 0 {
    } else if q <= s {
      assert OccursAt(t, r, 0);
    } else if s != [] {
      var rest := s[1..];
      var t' := ReplaceAll(rest, q, r);
      assert t == [s[0]] + t';
      assert s == [s[0]] + rest;
      PrefixOrReplacement(rest, q, r, k - 1);
      ConsShift(s[0], t', k - 1);
      if k - 1 <= |rest| && t'[..k - 1] == rest[..k - 1] {
        ConsShift(s[0], rest, k - 1);
      } else {
        var j :| 0 <= j < k - 1 && OccursAt(t', r, j);
        assert OccursAt(t, r, j + 1);
      }
    }
  }

  /** The replacement `r` starting at `j` in `p` would meet the end of `p`
      or sit inside it. */
  predicate Overlaps(p: string, r: string, j: nat) {
    || (j + |r| <= |p| && p[j..j + |r|] == r)
    || (j <= |p| < j + |r| && p[j..] == r[..|p| - j])
  }

  /** Inserting `r` can never complete an occurrence of `p`: `r` holds no
      first character of `p`, and no later part of `p` lines up with `r`. */
  predicate Safe(p: string, r: string) {
    && p != [] && r != []
    && p[0] !in r
    && forall j: nat :: 1 <= j < |p| ==> !Overlaps(p, r, j)
  }

  lemma SafeByChars(p: string, r: string, c: char)
    requires p != [] && r != []
    requires p[0] !in r && p[|p| - 1] !in r
    requires c in r && c !in p
    ensures Safe(p, r)
  {
    forall j: nat | 1 <= j < |p| ensures !Overlaps(p, r, j) {
    }
  }

  lemma SafeByHead(p: string, r: string)
    requires p != [] && r != []
    requires p[0] !in r && r[0] !in p[1..]
    ensures Safe(p, r)
  {
    forall j: nat | 1 <= j < |p| ensures !Overlaps(p, r, j) {
    }
  }

  /** Two occurrences in one text, the second starting inside the first. */
  lemma OverlapOfTwo(t: string, p: string, r: string, j: nat)
    requires j < |p| && p <= t && r <= t[j..]
    ensures Overlaps(p, r, j)
  {
    if j + |r| <= |p| {
      assert p[j..j + |r|] == t[j..j + |r|];
    } else {
      assert p[j..] == t[j..|p|] == r[..|p| - j];
    }
  }

  /** A text that agrees with another on the first `|p|` characters starts
      with `p` only if the other does. */
  lemma SamePrefix(t: string, s: string, p: string)
    requires |p| <= |t| && |p| <= |s| && t[..|p|] == s[..|p|] && !(p <= s)
    ensures !(p <= t)
  {
  }

  /** A safe replacement placed strictly inside the first `|p|` characters
      rules out `p` at the start. */
  lemma InsertedInside(t: string, p: string, r: string, j: nat)
    requires Safe(p, r) && 1 <= j < |p| && OccursAt(t, r, j)
    ensures !(p <= t)
  {
    if p <= t {
      OverlapOfTwo(t, p, r, j);
    }
  }

  /** Putting a character in front shifts prefixes and occurrences by one. */
  lemma ConsShift(c: char, u: string, n: nat)
    requires n <= |u|
    ensures ([c] + u)[..n + 1] == [c] + u[..n]
    ensures forall r: string, j :: OccursAt(u, r, j) ==> OccursAt([c] + u, r, j + 1)
  {
    forall r: string, j | OccursAt(u, r, j) ensures OccursAt([c] + u, r, j + 1) {
      assert ([c] + u)[j + 1..] == u[j..];
    }
  }

  /** When the input does not start with `q`, no occurrence of `p` starts
      the output. */
  lemma AvoidAtHead(s: string, q: string, r: string, p: string)
    requires q != [] && Safe(p, r) && s != [] && !(q <= s)
    requires p == q || !Contains(s, p)
    ensures !OccursAt(ReplaceAll(s, q, r), p, 0)
  {
    var rest := s[1..];
    var t' := ReplaceAll(rest, q, r);
    var t := ReplaceAll(s, q, r);
    assert t == [s[0]] + t';
    if |p| <= |t| {
      var n := |p| - 1;
      PrefixOrReplacement(rest, q, r, n);
      ConsShift(s[0], t', n);
      if n <= |rest| && t'[..n] == rest[..n] {
        ConsShift(s[0], rest, n);
        assert s == [s[0]] + rest;
        assert !(p <= s) by {
          if p != q { assert !OccursAt(s, p, 0); }
        }
        SamePrefix(t, s, p);
      } else {
        var j' :| 0 <= j' < n && OccursAt(t', r, j');
        InsertedInside(t, p, r, j' + 1);
      }
    }
  }

  /** After `s.replace(q, r)` with a safe `r`, `p` does not occur: either it
      was `q` itself, or it was absent to begin with. */
  lemma {:induction false} ReplaceAllAvoids(s: string, q: string, r: string, p: string)
    requires q != [] && Safe(p, r)
    requires p == q || !Contains(s, p)
    ensures !Contains(ReplaceAll(s, q, r), p)
    decreases |s|
  {
    var t := ReplaceAll(s, q, r);
    if q <= s {
      var rest := s[|q|..];
      if p != q { NotContainsDrop(s, p, |q|); }
      ReplaceAllAvoids(rest, q, r, p);
      var t' := ReplaceAll(rest, q, r);
      assert t == r + t';
      forall i | 0 <= i <= |t| ensures !OccursAt(t, p, i) {
        if i >= |r| {
          assert t[i..] == t'[i - |r|..];
          assert !OccursAt(t', p, i - |r|);
        } else {
          assert t[i] == r[i];
        }
      }
    } else if s != [] {
      var rest := s[1..];
      var t' := ReplaceAll(rest, q, r);
      assert t == [s[0]] + t';
      if p != q { NotContainsDrop(s, p, 1); }
      ReplaceAllAvoids(rest, q, r, p);
      forall i | 0 <= i <= |t| ensures !OccursAt(t, p, i) {
        if i >= 1 {
          assert t[i..] == t'[i - 1..];
          assert !OccursAt(t', p, i - 1);
        } else {
          AvoidAtHead(s, q, r, p);
        }
      }
    }
  }
}
