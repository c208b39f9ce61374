/** What derived summaries and titles keep: their words, whatever stood between them. */
module IndexWords {
  import opened Text
  import opened IndexBlock
  import opened IndexReconcile

  /** Words with something before, between and after them. */
  function Spread(words: seq<string>, gaps: seq<string>): string
    requires |gaps| == |words| + 1
  {
    if words == [] then gaps[0] else gaps[0] + (words[0] + Spread(words[1..], gaps[1..]))
  }

  /** One separator between words that follow each other. */
  function Spaced(words: seq<string>): string {
    if words == [] then ""
    else if |words| == 1 then words[0]
    else Spaced(words[..|words| - 1]) + " " + words[|words| - 1]
  }

  lemma {:induction false} SpacedFront(words: seq<string>)
    requires |words| > 1
    ensures Spaced(words) == words[0] + " " + Spaced(words[1..])
    decreases |words|
  {
    if |words| > 2 {
      var n := |words| - 1;
      SpacedFront(words[..n]);
      assert words[..n][1..] == words[1..][..n - 1] && words[..n][0] == words[0];
      var mid, last := Spaced(words[1..][..n - 1]), words[n];
      assert words[0] + " " + mid + " " + last == words[0] + " " + (mid + " " + last);
    } else {
      assert words[..1] == [words[0]] && words[1..] == [words[1]];
    }
  }

  lemma {:induction false} JoinedIsSpaced(words: seq<string>)
    ensures JoinWords(words) == Spaced(words)
    decreases |words|
  {
    if |words| > 1 {
      JoinedIsSpaced(words[1..]);
      SpacedFront(words);
    }
  }

  // ---------- whitespace-separated words ----------

  ghost predicate IsPlainWord(word: string) {
    word != [] && forall i :: 0 <= i < |word| ==> !IsWhitespace(word[i])
  }

  /** Words apart from each other by whitespace, of which there may also be some at the ends. */
  ghost predicate WordsApart(words: seq<string>, gaps: seq<string>) {
    && |gaps| == |words| + 1
    && (forall i :: 0 <= i < |words| ==> IsPlainWord(words[i]))
    && (forall i :: 0 <= i < |gaps| ==> AllWhitespace(gaps[i]))
    && forall i :: 0 < i < |words| ==> gaps[i] != []
  }

  lemma {:induction false} WordsSkip(gap: string, rest: string)
    requires AllWhitespace(gap)
    ensures Words(gap + rest) == Words(rest)
    decreases |gap|
  {
    if gap == [] {
      assert gap + rest == rest;
    } else {
      assert (gap + rest)[1..] == gap[1..] + rest;
      WordsSkip(gap[1..], rest);
    }
  }

  /** Splitting recovers exactly the words. */
  lemma {:induction false} WordsAre(words: seq<string>, gaps: seq<string>)
    requires WordsApart(words, gaps)
    ensures Words(Spread(words, gaps)) == words
    decreases |words|
  {
    hide IsWhitespace;
    if words == [] {
      WordsSkip(gaps[0], "");
      assert gaps[0] + "" == gaps[0];
    } else {
      var rest := Spread(words[1..], gaps[1..]);
      WordsSkip(gaps[0], words[0] + rest);
      TailApart(words, gaps);
      WordsAre(words[1..], gaps[1..]);
      var text := words[0] + rest;
      assert forall i :: 0 <= i < |words[0]| ==> text[i] == words[0][i];
      WordEndIs(text, |words[0]|);
      assert text[0] == words[0][0] && text[..|words[0]|] == words[0] && text[|words[0]|..] == rest;
    }
  }

  lemma TailApart(words: seq<string>, gaps: seq<string>)
    requires WordsApart(words, gaps) && words != []
    ensures WordsApart(words[1..], gaps[1..])
    ensures var rest := Spread(words[1..], gaps[1..]); rest == [] || IsWhitespace(rest[0])
  {
    hide IsWhitespace;
    if |words| > 1 {
      assert gaps[1..][0] == gaps[1] && gaps[1] != [];
    } else {
      assert gaps[1..][0] == gaps[1];
    }
  }

  // ---------- derived summaries ----------

  /** Table cells read `\|` as a pipe. */
  function Unescaped(s: string): string {
    if s == [] then []
    else if |s| > 1 && s[0] == '\\' && s[1] == '|' then ['|'] + Unescaped(s[2..])
    else [s[0]] + Unescaped(s[1..])
  }

  lemma {:induction false} PipesUnescape(s: string)
    ensures Unescaped(EscapePipes(s)) == s
    ensures s != [] && s[0] != '|' ==> EscapePipes(s) != [] && EscapePipes(s)[0] == s[0]
    ensures s != [] ==> EscapePipes(s) != [] && EscapePipes(s)[0] != '|'
    decreases |s|
  {
    if s != [] {
      var rest := EscapePipes(s[1..]);
      PipesUnescape(s[1..]);
      if s[0] == '|' {
        var e := "\\|" + rest;
        assert e[0] == '\\' && e[1] == '|' && e[2..] == rest;
      } else {
        var e := [s[0]] + rest;
        assert e[1..] == rest && e[0] == s[0];
      }
    }
  }

  /**
   * A derived summary is the words of the note's own, with one space between them, and with each pipe
   * escaped: a table cell shows exactly these words.
   */
  lemma SummaryKeepsWords(words: seq<string>, gaps: seq<string>)
    requires WordsApart(words, gaps)
    ensures Unescaped(SingleLine(Spread(words, gaps))) == Spaced(words)
    ensures forall i :: 0 <= i < |SingleLine(Spread(words, gaps))| && SingleLine(Spread(words, gaps))[i] == '|' ==>
              i > 0 && SingleLine(Spread(words, gaps))[i - 1] == '\\'
  {
    WordsAre(words, gaps);
    JoinedIsSpaced(words);
    PipesUnescape(Spaced(words));
    PipesAreEscaped(Spaced(words));
  }

  lemma {:induction false} PipesAreEscaped(s: string)
    ensures forall i :: 0 <= i < |EscapePipes(s)| && EscapePipes(s)[i] == '|' ==>
              i > 0 && EscapePipes(s)[i - 1] == '\\'
    decreases |s|
  {
    if s != [] {
      PipesAreEscaped(s[1..]);
      var head, rest := if s[0] == '|' then "\\|" else [s[0]], EscapePipes(s[1..]);
      forall i | 0 <= i < |EscapePipes(s)| && EscapePipes(s)[i] == '|' ensures i > 0 && EscapePipes(s)[i - 1] == '\\' {
        if i >= |head| {
          assert rest[i - |head|] == '|';
        }
      }
    }
  }

  // ---------- titles ----------

  predicate IsTitleGap(c: char) {
    c == '-' || c == '_' || c == ' '
  }

  ghost predicate TitleWordsApart(words: seq<string>, gaps: seq<string>) {
    && |gaps| == |words| + 1
    && (forall i :: 0 <= i < |words| ==> words[i] != [] && forall c :: c in words[i] ==> !IsTitleGap(c))
    && (forall i :: 0 <= i < |gaps| ==> forall c :: c in gaps[i] ==> IsTitleGap(c))
    && forall i :: 0 < i < |words| ==> gaps[i] != []
  }

  /** The word with its first character upper-cased. */
  function Capital(word: string, upper: Upper): string {
    if word == [] then [] else upper(word[0]) + word[1..]
  }

  function Capitals(words: seq<string>, upper: Upper): (r: seq<string>)
    ensures |r| == |words| && forall i :: 0 <= i < |r| ==> r[i] == Capital(words[i], upper)
  {
    seq(|words|, i requires 0 <= i < |words| => Capital(words[i], upper))
  }

  lemma {:induction false} TitleSkips(gap: string, rest: string, upper: Upper)
    requires forall c :: c in gap ==> IsTitleGap(c)
    ensures TitleWords(gap + rest, "", upper) == TitleWords(rest, "", upper)
    decreases |gap|
  {
    if gap == [] {
      assert gap + rest == rest;
    } else {
      assert gap[0] in gap && (gap + rest)[1..] == gap[1..] + rest;
      TitleSkips(gap[1..], rest, upper);
    }
  }

  lemma {:induction false} TitleTakes(before: string, word: string, rest: string, upper: Upper)
    requires (forall c :: c in word ==> !IsTitleGap(c)) && (rest == [] || IsTitleGap(rest[0]))
    ensures TitleWords(word + rest, before, upper) == FlushWord(before + word, upper) + TitleWords(rest, "", upper)
    decreases |word|
  {
    if word == [] {
      assert word + rest == rest && before + word == before;
      if rest == [] {
        assert FlushWord(before, upper) + [] == FlushWord(before, upper);
      } else {
        assert TitleWords(rest, "", upper) == [] + TitleWords(rest[1..], "", upper);
      }
    } else {
      assert word[0] in word && (word + rest)[1..] == word[1..] + rest;
      assert before + [word[0]] + word[1..] == before + word;
      TitleTakes(before + [word[0]], word[1..], rest, upper);
    }
  }

  lemma {:induction false} TitleWordsAre(words: seq<string>, gaps: seq<string>, upper: Upper)
    requires TitleWordsApart(words, gaps)
    ensures TitleWords(Spread(words, gaps), "", upper) == Capitals(words, upper)
    decreases |words|
  {
    hide TitleWords;
    if words == [] {
      TitleSkips(gaps[0], "", upper);
      assert gaps[0] + "" == gaps[0];
      NoTitleWords(upper);
    } else {
      var rest := Spread(words[1..], gaps[1..]);
      TitleSkips(gaps[0], words[0] + rest, upper);
      TitleTailApart(words, gaps);
      TitleWordsAre(words[1..], gaps[1..], upper);
      TitleTakes("", words[0], rest, upper);
      assert "" + words[0] == words[0];
      assert Capitals(words, upper) == [Capital(words[0], upper)] + Capitals(words[1..], upper);
    }
  }

  lemma NoTitleWords(upper: Upper)
    ensures TitleWords("", "", upper) == []
  {
  }

  lemma TitleTailApart(words: seq<string>, gaps: seq<string>)
    requires TitleWordsApart(words, gaps) && words != []
    ensures TitleWordsApart(words[1..], gaps[1..])
    ensures var rest := Spread(words[1..], gaps[1..]); rest == [] || IsTitleGap(rest[0])
  {
    assert gaps[1..][0] == gaps[1];
    if |words| > 1 {
      assert gaps[1][0] in gaps[1];
    } else if gaps[1] != [] {
      assert gaps[1][0] in gaps[1];
    }
  }

  /** A fresh document is headed by the directory's words, each with its first character upper-cased. */
  lemma FreshTitle(words: seq<string>, gaps: seq<string>, upper: Upper)
    requires TitleWordsApart(words, gaps)
    ensures FreshLead(Spread(words, gaps), upper) == "# " + Spaced(Capitals(words, upper)) + ": Index\n\n"
  {
    TitleWordsAre(words, gaps, upper);
    JoinedIsSpaced(Capitals(words, upper));
  }
}
