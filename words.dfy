/**
  The word-list reader of the build script (`parse_words`): the stripped,
  non-blank lines of a text, in order.
 */
module Words {
  import opened Text

  /** `[w.strip() for w in lines if w.strip()]`. */
  function NonBlank(lines: seq<string>): (r: seq<string>)
    ensures |r| <= |lines|
    ensures forall i :: 0 <= i < |r| ==> r[i] != [] && Stripped(r[i])
  {
    if lines == [] then []
    else
      var w := Strip(lines[0]);
      (if w != [] then [w] else []) + NonBlank(lines[1..])
  }

  /** `parse_words(text)`. */
  function ParseWords(text: string): seq<string> {
    NonBlank(Lines(text))
  }

  /** A word is a non-empty line with no whitespace at its ends. */
  predicate IsWord(w: string) {
    w != [] && Stripped(w) && '\n' !in w
  }

  lemma {:induction false} NonBlankOfWords(ws: seq<string>)
    requires forall i :: 0 <= i < |ws| ==> IsWord(ws[i])
    ensures NonBlank(ws) == ws
  {
    if ws != [] {
      StripOfStripped(ws[0]);
      NonBlankOfWords(ws[1..]);
    }
  }

  /** A join starts with the first part's first character and ends with the
      last part's last character. */
  lemma {:induction false} JoinEnds(parts: seq<string>, sep: string)
    requires |parts| >= 1 && forall i :: 0 <= i < |parts| ==> parts[i] != []
    ensures var j := Join(parts, sep);
      j != [] && j[0] == parts[0][0] && j[|j| - 1] == parts[|parts| - 1][|parts[|parts| - 1]| - 1]
  {
    if |parts| > 1 {
      var rest := Join(parts[1..], sep);
      JoinEnds(parts[1..], sep);
      assert Join(parts, sep) == parts[0] + sep + rest;
    }
  }

  /** Words written one per line leave no whitespace at either end. */
  lemma JoinedWordsStripped(ws: seq<string>)
    requires |ws| >= 1 && forall i :: 0 <= i < |ws| ==> IsWord(ws[i])
    ensures Stripped(Join(ws, "\n"))
  {
    JoinEnds(ws, "\n");
    assert IsWord(ws[0]) && IsWord(ws[|ws| - 1]);
  }

  /** Writing words one per line and reading them back gives the same words. */
  lemma ParseWordsRoundTrip(ws: seq<string>)
    requires forall i :: 0 <= i < |ws| ==> IsWord(ws[i])
    ensures ParseWords(Join(ws, "\n")) == ws
  {
    if ws == [] {
      assert Lines("") == [""];
    } else {
      var text := Join(ws, "\n");
      JoinedWordsStripped(ws);
      StripOfStripped(text);
      assert forall i :: 0 <= i < |ws| ==> '\n' !in ws[i];
      SplitJoin(ws, '\n');
      assert Lines(text) == ws;
      NonBlankOfWords(ws);
    }
  }

  /** Blank and whitespace-only lines never reach the list. */
  lemma {:induction false} NonBlankSkipsBlank(a: seq<string>, blank: string, b: seq<string>)
    requires AllWs(blank)
    ensures NonBlank(a + [blank] + b) == NonBlank(a) + NonBlank(b)
  {
    if a == [] {
      StripEmptyIff(blank);
      assert (a + [blank] + b)[1..] == b;
    } else {
      assert (a + [blank] + b)[1..] == a[1..] + [blank] + b;
      NonBlankSkipsBlank(a[1..], blank, b);
    }
  }
}
