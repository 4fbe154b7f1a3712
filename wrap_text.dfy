/// `ResultsView._wrap_text`: text split into words at whitespace, then laid
/// out greedily in lines whose width, estimated as characters times a fixed
/// character width, stays within a maximum.
module ResultsView {
  /// The characters `str.split()` with no separator splits at.
  predicate IsSpace(c: char)
  {
    ('\t' <= c <= '\r') || ('\U{1C}' <= c <= '\U{1F}') || c == ' '
    || c == '\U{85}' || c == '\U{A0}' || c == '\U{1680}'
    || ('\U{2000}' <= c <= '\U{200A}') || c == '\U{2028}' || c == '\U{2029}'
    || c == '\U{202F}' || c == '\U{205F}' || c == '\U{3000}'
  }

  /// A word: some characters, none of them whitespace.
  predicate IsWord(w: string)
  {
    w != [] && forall k :: 0 <= k < |w| ==> !IsSpace(w[k])
  }

  /// The length of the run of non-whitespace characters `s` starts with.
  function WordLength(s: string): (n: nat)
    ensures n <= |s|
    ensures forall k :: 0 <= k < n ==> !IsSpace(s[k])
    ensures n < |s| ==> IsSpace(s[n])
  {
    if s == [] || IsSpace(s[0]) then 0 else 1 + WordLength(s[1..])
  }

  /// `text.split()`: the maximal runs of non-whitespace characters, in order.
  function Words(s: string): (ws: seq<string>)
    ensures forall i :: 0 <= i < |ws| ==> IsWord(ws[i])
    decreases |s|
  {
    if s == [] then []
    else if IsSpace(s[0]) then Words(s[1..])
    else
      var n := WordLength(s);
      [s[..n]] + Words(s[n..])
  }

  /// `" ".join(ws)`: the words with one space between each two.
  function JoinSpaced(ws: seq<string>): string
  {
    if ws == [] then ""
    else if |ws| == 1 then ws[0]
    else ws[0] + " " + JoinSpaced(ws[1..])
  }

  /// The words of groups of words, one group after the other.
  function Flatten(groups: seq<seq<string>>): seq<string>
  {
    if groups == [] then [] else groups[0] + Flatten(groups[1..])
  }

  /// A word followed by nothing or by whitespace is read back whole.
  lemma {:induction false} WordLengthOfWord(w: string, rest: string)
    requires IsWord(w)
    requires rest == [] || IsSpace(rest[0])
    ensures WordLength(w + rest) == |w|
  {
    assert (w + rest)[1..] == w[1..] + rest;
    if |w| > 1 {
      WordLengthOfWord(w[1..], rest);
    } else {
      assert w[1..] + rest == rest;
    }
  }

  /// Splitting words joined by single spaces gives the words back.
  lemma {:induction false} SplitJoin(ws: seq<string>)
    requires forall i :: 0 <= i < |ws| ==> IsWord(ws[i])
    ensures Words(JoinSpaced(ws)) == ws
  {
    if |ws| == 1 {
      var w := ws[0];
      WordLengthOfWord(w, []);
      assert w + [] == w;
      assert w[|w|..] == [];
    } else if |ws| > 1 {
      var w, tail := ws[0], JoinSpaced(ws[1..]);
      var s := w + " " + tail;
      WordLengthOfWord(w, " " + tail);
      assert s == w + (" " + tail);
      assert s[..|w|] == w;
      assert s[|w|..] == " " + tail;
      assert (" " + tail)[1..] == tail;
      SplitJoin(ws[1..]);
      assert ws == [w] + ws[1..];
    }
  }

  /// Joining two non-empty lists of words is joining each, with a space
  /// between.
  lemma {:induction false} JoinAppend(a: seq<string>, b: seq<string>)
    requires a != [] && b != []
    ensures JoinSpaced(a + b) == JoinSpaced(a) + " " + JoinSpaced(b)
  {
    assert (a + b)[0] == a[0];
    assert (a + b)[1..] == a[1..] + b;
    if |a| > 1 {
      JoinAppend(a[1..], b);
    }
  }

  /// Lines made of non-empty groups of words, joined by single spaces, are
  /// the words of all groups joined by single spaces.
  lemma {:induction false} JoinLines(lines: seq<string>, groups: seq<seq<string>>)
    requires |lines| == |groups|
    requires forall i :: 0 <= i < |groups| ==> groups[i] != [] && lines[i] == JoinSpaced(groups[i])
    ensures JoinSpaced(lines) == JoinSpaced(Flatten(groups))
  {
    if |groups| == 1 {
      assert Flatten(groups) == groups[0] + Flatten(groups[1..]);
      assert Flatten(groups) == groups[0];
    } else if |groups| > 1 {
      JoinLines(lines[1..], groups[1..]);
      assert Flatten(groups[1..]) != [] by {
        FlattenLength(groups[1..]);
      }
      JoinAppend(groups[0], Flatten(groups[1..]));
    }
  }

  lemma {:induction false} FlattenLength(groups: seq<seq<string>>)
    requires groups != [] && groups[0] != []
    ensures Flatten(groups) != []
  {
    assert Flatten(groups)[0] == groups[0][0];
  }

  /// Adding one more group at the end adds its words at the end.
  lemma {:induction false} FlattenSnoc(groups: seq<seq<string>>, g: seq<string>)
    ensures Flatten(groups + [g]) == Flatten(groups) + g
  {
    if groups == [] {
      assert Flatten([g]) == g + [];
    } else {
      assert (groups + [g])[1..] == groups[1..] + [g];
      FlattenSnoc(groups[1..], g);
    }
  }

  /// A line ending with a group of words and one more word.
  lemma JoinSnoc(g: seq<string>, w: string)
    requires g != []
    ensures JoinSpaced(g + [w]) == JoinSpaced(g) + " " + w
  {
    JoinAppend(g, [w]);
  }

  /// A line of words joined by single spaces is empty exactly when it has
  /// no words.
  lemma {:induction false} JoinEmpty(g: seq<string>)
    requires forall i :: 0 <= i < |g| ==> IsWord(g[i])
    ensures JoinSpaced(g) == "" <==> g == []
  {
    if |g| > 1 {
      JoinEmpty(g[1..]);
    }
  }

  /// The width `_wrap_text` estimates for `n` characters of `charWidth`
  /// each.
  function Width(n: nat, charWidth: int): int
  {
    if n == 0 then 0 else Width(n - 1, charWidth) + charWidth
  }

  /// The estimate is the product the source computes.
  lemma {:induction false} WidthIsProduct(n: nat, charWidth: int)
    ensures Width(n, charWidth) == n * charWidth
  {
    if n > 0 {
      WidthIsProduct(n - 1, charWidth);
    }
  }

  /// Lines made of groups of words: each line is its non-empty group of
  /// words joined by single spaces.
  ghost predicate LinesOf(lines: seq<string>, groups: seq<seq<string>>)
  {
    && |groups| == |lines|
    && (forall k :: 0 <= k < |lines| ==> groups[k] != [] && lines[k] == JoinSpaced(groups[k]))
    && (forall k, j :: 0 <= k < |groups| && 0 <= j < |groups[k]| ==> IsWord(groups[k][j]))
  }

  /// Every line of two or more words fits the width.
  ghost predicate ManyWordsFit(lines: seq<string>, groups: seq<seq<string>>, maxWidth: int, charWidth: int)
    requires |groups| == |lines|
  {
    forall k :: 0 <= k < |lines| && |groups[k]| >= 2 ==> Width(|lines[k]|, charWidth) <= maxWidth
  }

  /// Every line after the first starts with a word that would not have
  /// fitted after the line before it.
  ghost predicate Greedy(lines: seq<string>, groups: seq<seq<string>>, maxWidth: int, charWidth: int)
    requires |groups| == |lines| && forall k :: 0 <= k < |groups| ==> groups[k] != []
  {
    forall k :: 0 < k < |lines| ==> Width(|lines[k - 1]| + 1 + |groups[k][0]|, charWidth) > maxWidth
  }

  /// Closing a non-empty group of words as the next line.
  lemma CloseLinesOf(lines: seq<string>, groups: seq<seq<string>>, line: string, g: seq<string>)
    requires LinesOf(lines, groups)
    requires g != [] && line == JoinSpaced(g) && forall j :: 0 <= j < |g| ==> IsWord(g[j])
    ensures LinesOf(lines + [line], groups + [g])
  {
    var lines', groups' := lines + [line], groups + [g];
    forall k | 0 <= k < |lines'| ensures groups'[k] != [] && lines'[k] == JoinSpaced(groups'[k]) {
      if k < |lines| {
        assert lines'[k] == lines[k] && groups'[k] == groups[k];
      }
    }
    forall k, j | 0 <= k < |groups'| && 0 <= j < |groups'[k]| ensures IsWord(groups'[k][j]) {
      if k < |groups| {
        assert groups'[k] == groups[k];
      }
    }
  }

  /// Closing a line that fits, or holds one word, keeps every line of two or
  /// more words fitting.
  lemma CloseFits(lines: seq<string>, groups: seq<seq<string>>, line: string, g: seq<string>, maxWidth: int, charWidth: int)
    requires |groups| == |lines| && ManyWordsFit(lines, groups, maxWidth, charWidth)
    requires |g| >= 2 ==> Width(|line|, charWidth) <= maxWidth
    ensures ManyWordsFit(lines + [line], groups + [g], maxWidth, charWidth)
  {
    var lines', groups' := lines + [line], groups + [g];
    forall k | 0 <= k < |lines'| && |groups'[k]| >= 2 ensures Width(|lines'[k]|, charWidth) <= maxWidth {
      if k < |lines| {
        assert lines'[k] == lines[k] && groups'[k] == groups[k];
      }
    }
  }

  /// Closing a line whose first word would not have fitted after the line
  /// before it keeps the lines greedy.
  lemma CloseGreedy(lines: seq<string>, groups: seq<seq<string>>, line: string, g: seq<string>, maxWidth: int, charWidth: int)
    requires |groups| == |lines| && forall k :: 0 <= k < |groups| ==> groups[k] != []
    requires Greedy(lines, groups, maxWidth, charWidth) && g != []
    requires lines != [] ==> Width(|lines[|lines| - 1]| + 1 + |g[0]|, charWidth) > maxWidth
    ensures Greedy(lines + [line], groups + [g], maxWidth, charWidth)
  {
    var lines', groups' := lines + [line], groups + [g];
    assert forall k :: 0 <= k < |groups'| ==> groups'[k] != [] by {
      forall k | 0 <= k < |groups'| ensures groups'[k] != [] {
        if k < |groups| {
          assert groups'[k] == groups[k];
        }
      }
    }
    forall k | 0 < k < |lines'| ensures Width(|lines'[k - 1]| + 1 + |groups'[k][0]|, charWidth) > maxWidth {
      assert lines'[k - 1] == lines[k - 1];
      if k < |lines| {
        assert groups'[k] == groups[k];
      }
    }
  }

  /// The layout so far: the closed lines with their groups, and the line
  /// being filled with its group, after the first `i` words.
  ghost predicate Filling(words: seq<string>, i: nat, lines: seq<string>, groups: seq<seq<string>>, currentLine: string, current: seq<string>, maxWidth: int, charWidth: int)
    requires i <= |words|
  {
    && LinesOf(lines, groups)
    && ManyWordsFit(lines, groups, maxWidth, charWidth)
    && Greedy(lines, groups, maxWidth, charWidth)
    && Flatten(groups) + current == words[..i]
    && currentLine == JoinSpaced(current)
    && (forall j :: 0 <= j < |current| ==> IsWord(current[j]))
    && (i == 0 ==> current == [] && lines == [])
    && (i > 0 ==> current != [])
    && (|current| >= 2 ==> Width(|currentLine|, charWidth) <= maxWidth)
    && (lines != [] ==> Width(|lines[|lines| - 1]| + 1 + |current[0]|, charWidth) > maxWidth)
  }

  /// After the last word the line being filled is closed, when there is
  /// one: the groups of the lines are then all the words.
  lemma LastLine(words: seq<string>, lines: seq<string>, groups: seq<seq<string>>, currentLine: string, current: seq<string>, maxWidth: int, charWidth: int)
    requires Filling(words, |words|, lines, groups, currentLine, current, maxWidth, charWidth)
    ensures currentLine != "" ==>
      && LinesOf(lines + [currentLine], groups + [current])
      && ManyWordsFit(lines + [currentLine], groups + [current], maxWidth, charWidth)
      && Greedy(lines + [currentLine], groups + [current], maxWidth, charWidth)
      && Flatten(groups + [current]) == words
    ensures currentLine == "" ==> Flatten(groups) == words
  {
    assert words[..|words|] == words;
    JoinEmpty(current);
    if currentLine != "" {
      CloseLinesOf(lines, groups, currentLine, current);
      CloseFits(lines, groups, currentLine, current, maxWidth, charWidth);
      CloseGreedy(lines, groups, currentLine, current, maxWidth, charWidth);
      FlattenSnoc(groups, current);
    } else {
      assert Flatten(groups) + [] == Flatten(groups);
    }
  }

  /// Lines laid out from groups that are all the words of the text: the
  /// properties `_wrap_text` promises.
  lemma FinishedLayout(words: seq<string>, lines: seq<string>, groups: seq<seq<string>>, maxWidth: int, charWidth: int)
    requires forall j :: 0 <= j < |words| ==> IsWord(words[j])
    requires LinesOf(lines, groups) && ManyWordsFit(lines, groups, maxWidth, charWidth)
    requires Greedy(lines, groups, maxWidth, charWidth) && Flatten(groups) == words
    ensures |groups| == |lines|
    ensures forall i :: 0 <= i < |lines| ==> groups[i] != [] && lines[i] == JoinSpaced(groups[i])
    ensures forall i :: 0 <= i < |lines| ==> lines[i] != ""
    ensures Words(JoinSpaced(lines)) == words
    ensures forall i :: 0 <= i < |lines| && |groups[i]| >= 2 ==> |lines[i]| * charWidth <= maxWidth
    ensures forall i :: 0 < i < |lines| ==> (|lines[i - 1]| + 1 + |groups[i][0]|) * charWidth > maxWidth
  {
    forall k | 0 <= k < |lines| ensures lines[k] != "" {
      JoinEmpty(groups[k]);
    }
    JoinLines(lines, groups);
    SplitJoin(words);
    ProductForm(lines, groups, maxWidth, charWidth);
  }

  /// The fit and the greedy breaks in the source's own terms: the length of
  /// a line times the character width.
  lemma ProductForm(lines: seq<string>, groups: seq<seq<string>>, maxWidth: int, charWidth: int)
    requires |groups| == |lines| && forall k :: 0 <= k < |groups| ==> groups[k] != []
    requires ManyWordsFit(lines, groups, maxWidth, charWidth) && Greedy(lines, groups, maxWidth, charWidth)
    ensures forall i :: 0 <= i < |lines| && |groups[i]| >= 2 ==> |lines[i]| * charWidth <= maxWidth
    ensures forall i :: 0 < i < |lines| ==> (|lines[i - 1]| + 1 + |groups[i][0]|) * charWidth > maxWidth
  {
    forall i | 0 <= i < |lines| && |groups[i]| >= 2 ensures |lines[i]| * charWidth <= maxWidth {
      WidthIsProduct(|lines[i]|, charWidth);
    }
    forall i | 0 < i < |lines| ensures (|lines[i - 1]| + 1 + |groups[i][0]|) * charWidth > maxWidth {
      WidthIsProduct(|lines[i - 1]| + 1 + |groups[i][0]|, charWidth);
    }
  }

  /// `_wrap_text`: the words of `text` in lines. Every line is a non-empty
  /// group of the words, the groups are the words in order, and so the lines
  /// joined by single spaces split back into the words of `text`. A line of
  /// two or more words fits, `|line| * charWidth <= maxWidth`; only a line of
  /// one word may be wider. Each line but the last is as long as it can be:
  /// the next line's first word would not have fitted after it.
  method WrapText(text: string, maxWidth: int, charWidth: int) returns (lines: seq<string>, ghost groups: seq<seq<string>>)
    ensures |groups| == |lines| && Flatten(groups) == Words(text)
    ensures forall i :: 0 <= i < |lines| ==> groups[i] != [] && lines[i] == JoinSpaced(groups[i])
    ensures forall i :: 0 <= i < |lines| ==> lines[i] != ""
    ensures Words(JoinSpaced(lines)) == Words(text)
    ensures forall i :: 0 <= i < |lines| && |groups[i]| >= 2 ==> |lines[i]| * charWidth <= maxWidth
    ensures forall i :: 0 < i < |lines| ==> (|lines[i - 1]| + 1 + |groups[i][0]|) * charWidth > maxWidth
  {
    var words := Words(text);
    var currentLine;
    ghost var current;
    lines, groups, currentLine, current := LayWords(words, maxWidth, charWidth);
    LastLine(words, lines, groups, currentLine, current, maxWidth, charWidth);
    if currentLine != "" {
      lines := lines + [currentLine];
      groups := groups + [current];
    }
    FinishedLayout(words, lines, groups, maxWidth, charWidth);
  }

  /// The `for` loop of `_wrap_text`: every word placed, the last line still
  /// open.
  method LayWords(words: seq<string>, maxWidth: int, charWidth: int)
    returns (lines: seq<string>, ghost groups: seq<seq<string>>, currentLine: string, ghost current: seq<string>)
    requires forall j :: 0 <= j < |words| ==> IsWord(words[j])
    ensures Filling(words, |words|, lines, groups, currentLine, current, maxWidth, charWidth)
  {
    lines := [];
    groups := [];
    currentLine := "";
    current := [];
    for i := 0 to |words|
      invariant Filling(words, i, lines, groups, currentLine, current, maxWidth, charWidth)
    {
      lines, groups, currentLine, current := PlaceWord(words, i, lines, groups, currentLine, current, maxWidth, charWidth);
    }
  }

  /// One pass of the loop of `_wrap_text`: word `i` goes after the line being
  /// filled when the result fits; otherwise that line is closed, when there
  /// is one, and the word starts the next.
  method PlaceWord(words: seq<string>, i: nat, lines: seq<string>, ghost groups: seq<seq<string>>, currentLine: string, ghost current: seq<string>, maxWidth: int, charWidth: int)
    returns (lines': seq<string>, ghost groups': seq<seq<string>>, currentLine': string, ghost current': seq<string>)
    requires i < |words| && forall j :: 0 <= j < |words| ==> IsWord(words[j])
    requires Filling(words, i, lines, groups, currentLine, current, maxWidth, charWidth)
    ensures Filling(words, i + 1, lines', groups', currentLine', current', maxWidth, charWidth)
  {
    var word := words[i];
    var testLine := if currentLine != "" then currentLine + " " + word else word;
    WidthIsProduct(|testLine|, charWidth);
    if |testLine| * charWidth > maxWidth {
      StartLine(words, i, lines, groups, currentLine, current, maxWidth, charWidth);
      lines', groups' := lines, groups;
      if currentLine != "" {
        lines', groups' := lines + [currentLine], groups + [current];
      }
      currentLine', current' := word, [word];
    } else {
      ExtendLine(words, i, lines, groups, currentLine, current, maxWidth, charWidth);
      lines', groups' := lines, groups;
      currentLine', current' := testLine, current + [word];
    }
  }

  /// A word that does not fit after the line being filled closes that line,
  /// when there is one, and starts the next.
  lemma StartLine(words: seq<string>, i: nat, lines: seq<string>, groups: seq<seq<string>>, currentLine: string, current: seq<string>, maxWidth: int, charWidth: int)
    requires i < |words| && forall j :: 0 <= j < |words| ==> IsWord(words[j])
    requires Filling(words, i, lines, groups, currentLine, current, maxWidth, charWidth)
    requires currentLine != "" ==> Width(|currentLine| + 1 + |words[i]|, charWidth) > maxWidth
    ensures var lines' := if currentLine != "" then lines + [currentLine] else lines;
      var groups' := if currentLine != "" then groups + [current] else groups;
      Filling(words, i + 1, lines', groups', words[i], [words[i]], maxWidth, charWidth)
  {
    var word := words[i];
    assert words[..i + 1] == words[..i] + [word];
    JoinEmpty(current);
    if currentLine != "" {
      CloseLinesOf(lines, groups, currentLine, current);
      CloseFits(lines, groups, currentLine, current, maxWidth, charWidth);
      CloseGreedy(lines, groups, currentLine, current, maxWidth, charWidth);
      FlattenSnoc(groups, current);
      assert (lines + [currentLine])[|lines|] == currentLine;
    }
  }

  /// A word that fits after the line being filled, or that starts the first
  /// line, joins it.
  lemma ExtendLine(words: seq<string>, i: nat, lines: seq<string>, groups: seq<seq<string>>, currentLine: string, current: seq<string>, maxWidth: int, charWidth: int)
    requires i < |words| && forall j :: 0 <= j < |words| ==> IsWord(words[j])
    requires Filling(words, i, lines, groups, currentLine, current, maxWidth, charWidth)
    requires currentLine != "" ==> Width(|currentLine| + 1 + |words[i]|, charWidth) <= maxWidth
    ensures var testLine := if currentLine != "" then currentLine + " " + words[i] else words[i];
      Filling(words, i + 1, lines, groups, testLine, current + [words[i]], maxWidth, charWidth)
  {
    var word := words[i];
    assert words[..i + 1] == words[..i] + [word];
    JoinEmpty(current);
    if current != [] {
      JoinSnoc(current, word);
      assert (current + [word])[0] == current[0];
    } else {
      assert current + [word] == [word];
    }
  }
}
