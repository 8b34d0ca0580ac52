/**
 The word counter: `count_words` tallies how often each whitespace-separated
 token occurs over the lines of a file and how many tokens there are in all;
 `format_results` ranks the words by descending count, ties in ascending
 string order, and lays out one row per word and a `Grand Total` row.
 */
module WordCount {
  import opened Whitespace
  import LexOrder
  import opened Numerals
  import opened Text

  /** The tokens one line contributes: none if it is blank after stripping. */
  function LineTokens(line: string): seq<string> {
    var raw := Strip(line);
    if raw == "" then [] else Split(raw)
  }

  /** The blank-line check and the strip change nothing: a line contributes exactly `line.split()`. */
  lemma LineTokensAreSplit(line: string)
    ensures LineTokens(line) == Split(line)
  {
    SplitStrip(line);
    BlankIffNoTokens(line);
  }

  /** Every token of the lines, in the order they are read. */
  function AllTokens(lines: seq<string>): seq<string> {
    if lines == [] then []
    else AllTokens(lines[..|lines| - 1]) + LineTokens(lines[|lines| - 1])
  }

  /** Every token is non-empty and has no whitespace. */
  lemma {:induction false} TokensAreWords(lines: seq<string>)
    ensures forall k :: 0 <= k < |AllTokens(lines)| ==>
      |AllTokens(lines)[k]| > 0 && NoSpace(AllTokens(lines)[k])
    decreases |lines|
  {
    if lines != [] {
      TokensAreWords(lines[..|lines| - 1]);
    }
  }

  /** The sum of the counts of a frequency table. */
  ghost function MapSum(m: map<string, nat>): nat
    decreases |m|
  {
    if |m| == 0 then 0
    else
      var k :| k in m;
      assert |m - {k}| < |m| by { assert (m - {k}).Keys == m.Keys - {k}; }
      m[k] + MapSum(m - {k})
  }

  lemma MapRemoveSize(m: map<string, nat>, k: string)
    requires k in m
    ensures |m - {k}| == |m| - 1
  {
    assert (m - {k}).Keys == m.Keys - {k};
  }

  lemma RemoveTwo(m: map<string, nat>, j: string, k: string)
    ensures (m - {j}) - {k} == (m - {k}) - {j}
  {
    var a, b := (m - {j}) - {k}, (m - {k}) - {j};
    assert a.Keys == b.Keys;
  }

  /** The sum does not depend on which key is taken out first. */
  lemma {:induction false} MapSumRemove(m: map<string, nat>, k: string)
    requires k in m
    ensures MapSum(m) == m[k] + MapSum(m - {k})
    decreases |m|
  {
    assert k in m.Keys;
    assert |m| == |m.Keys| > 0;
    var j :| j in m && MapSum(m) == m[j] + MapSum(m - {j});
    if j != k {
      var mj, mk := m - {j}, m - {k};
      MapRemoveSize(m, j);
      MapRemoveSize(m, k);
      assert k in mj && j in mk;
      MapSumRemove(mj, k);
      MapSumRemove(mk, j);
      RemoveTwo(m, j, k);
    }
  }

  /** Setting the count of `k` to `v` changes the sum by the difference. */
  lemma MapSumUpdate(m: map<string, nat>, k: string, v: nat)
    ensures MapSum(m[k := v]) == MapSum(m) - (if k in m then m[k] else 0) + v
  {
    MapSumRemove(m[k := v], k);
    if k in m {
      MapSumRemove(m, k);
      assert m[k := v] - {k} == m - {k};
    } else {
      assert m[k := v] - {k} == m;
    }
  }

  /** `frequencies` has one key per distinct token of `seen`, whose count is its number of occurrences. */
  ghost predicate Counts(frequencies: map<string, nat>, seen: seq<string>) {
    && (forall w :: w in frequencies <==> w in multiset(seen))
    && (forall w :: w in frequencies ==> frequencies[w] == multiset(seen)[w])
  }

  /**
   `frequencies` and `total` are the tally of the tokens `seen`: the counts
   of its tokens, adding up to the total, which is the number of tokens.
   */
  ghost predicate Tally(frequencies: map<string, nat>, total: nat, seen: seq<string>) {
    total == |seen| && Counts(frequencies, seen) && MapSum(frequencies) == total
  }

  /** The table after counting `token` once more. */
  function Counted(frequencies: map<string, nat>, token: string): map<string, nat> {
    frequencies[token := (if token in frequencies then frequencies[token] else 0) + 1]
  }

  /** Counting one more token adds one to its count and leaves every other count as it was. */
  lemma CountsAdd(frequencies: map<string, nat>, seen: seq<string>, token: string)
    requires Counts(frequencies, seen)
    ensures Counts(Counted(frequencies, token), seen + [token])
  {
    assert multiset(seen + [token]) == multiset(seen) + multiset{token};
  }

  /** Counting one more token adds one to the sum of the counts. */
  lemma SumAdd(frequencies: map<string, nat>, token: string)
    ensures MapSum(Counted(frequencies, token)) == MapSum(frequencies) + 1
  {
    MapSumUpdate(frequencies, token, (if token in frequencies then frequencies[token] else 0) + 1);
  }

  /** Counting one more token keeps the tally. */
  lemma TallyAdd(frequencies: map<string, nat>, total: nat, seen: seq<string>, token: string)
    requires Tally(frequencies, total, seen)
    ensures Tally(Counted(frequencies, token), total + 1, seen + [token])
  {
    CountsAdd(frequencies, seen, token);
    SumAdd(frequencies, token);
  }

  /** The frequency table of `tokens`: each token counted in turn, from an empty table. */
  function Frequencies(tokens: seq<string>): map<string, nat> {
    if tokens == [] then map[]
    else Counted(Frequencies(tokens[..|tokens| - 1]), tokens[|tokens| - 1])
  }

  /**
   Counting the tokens one by one yields their tally: the keys are the
   distinct tokens, each counted as often as it occurs, and the counts add up
   to the number of tokens.
   */
  lemma {:induction false} FrequenciesTally(tokens: seq<string>)
    ensures Tally(Frequencies(tokens), |tokens|, tokens)
    decreases |tokens|
  {
    if tokens == [] {
      assert MapSum(map[]) == 0;
    } else {
      var init := tokens[..|tokens| - 1];
      FrequenciesTally(init);
      TallyAdd(Frequencies(init), |init|, init, tokens[|tokens| - 1]);
      assert init + [tokens[|tokens| - 1]] == tokens;
    }
  }

  /**
   `emptyLines` holds, in increasing order, the 1-based numbers of the first
   `i` lines that are blank after stripping.
   */
  ghost predicate BlankLines(emptyLines: seq<nat>, lines: seq<string>, i: nat)
    requires i <= |lines|
  {
    && (forall n :: n in emptyLines <==> 1 <= n <= i && Strip(lines[n - 1]) == "")
    && (forall p, q :: 0 <= p < q < |emptyLines| ==> emptyLines[p] < emptyLines[q])
    && (forall p :: 0 <= p < |emptyLines| ==> emptyLines[p] <= i)
  }

  /** Reading line `i + 1` appends its number exactly when it is blank. */
  lemma BlankLinesStep(emptyLines: seq<nat>, lines: seq<string>, i: nat)
    requires i < |lines| && BlankLines(emptyLines, lines, i)
    ensures BlankLines(if Strip(lines[i]) == "" then emptyLines + [i + 1] else emptyLines, lines, i + 1)
  {}

  /** The tally of all tokens: every key is a word that occurs at least once. */
  lemma TallyWords(frequencies: map<string, nat>, total: nat, lines: seq<string>)
    requires Tally(frequencies, total, AllTokens(lines))
    ensures forall w :: w in frequencies ==> frequencies[w] >= 1 && |w| > 0 && NoSpace(w)
  {
    TokensAreWords(lines);
    forall w | w in frequencies
      ensures frequencies[w] >= 1 && |w| > 0 && NoSpace(w)
    {
      var k :| 0 <= k < |AllTokens(lines)| && AllTokens(lines)[k] == w;
    }
  }

  /**
   The inner loop of `count_words`: every token of one line is counted in
   turn, on top of the table and total of the tokens `seen` before it.
   */
  method CountTokens(frequencies0: map<string, nat>, total0: nat, tokens: seq<string>, ghost seen: seq<string>)
    returns (frequencies: map<string, nat>, total: nat)
    requires frequencies0 == Frequencies(seen) && total0 == |seen|
    ensures frequencies == Frequencies(seen + tokens) && total == |seen + tokens|
  {
    frequencies, total := frequencies0, total0;
    assert seen + tokens[..0] == seen;
    for t := 0 to |tokens|
      invariant frequencies == Frequencies(seen + tokens[..t]) && total == |seen| + t
    {
      var token := tokens[t];
      ghost var next := seen + tokens[..t + 1];
      assert next[..|next| - 1] == seen + tokens[..t] && next[|next| - 1] == token;
      total := total + 1;
      frequencies := Counted(frequencies, token);
    }
    assert tokens[..|tokens|] == tokens;
  }

  /** Reading line `i + 1` adds the tokens of its stripped text, none if it is blank. */
  lemma AllTokensStep(lines: seq<string>, i: nat)
    requires i < |lines|
    ensures Strip(lines[i]) == "" ==> AllTokens(lines[..i + 1]) == AllTokens(lines[..i])
    ensures Strip(lines[i]) != "" ==> AllTokens(lines[..i + 1]) == AllTokens(lines[..i]) + Split(Strip(lines[i]))
  {
    assert lines[..i + 1][..i] == lines[..i];
    assert AllTokens(lines[..i]) + [] == AllTokens(lines[..i]);
  }

  /**
   The counting loop of `count_words` over the lines of a file. It returns
   the frequency table, the number of tokens, and the 1-based numbers of the
   lines reported as empty.
   */
  method CountWords(lines: seq<string>) returns (frequencies: map<string, nat>, totalWords: nat, emptyLines: seq<nat>)
    ensures frequencies == Frequencies(AllTokens(lines)) && totalWords == |AllTokens(lines)|
    ensures forall n :: n in emptyLines <==> 1 <= n <= |lines| && Strip(lines[n - 1]) == ""
    ensures forall p, q :: 0 <= p < q < |emptyLines| ==> emptyLines[p] < emptyLines[q]
  {
    frequencies := map[];
    totalWords := 0;
    emptyLines := [];
    var lineNumber := 0;
    for i := 0 to |lines|
      invariant lineNumber == i
      invariant frequencies == Frequencies(AllTokens(lines[..i])) && totalWords == |AllTokens(lines[..i])|
      invariant BlankLines(emptyLines, lines, i)
    {
      BlankLinesStep(emptyLines, lines, i);
      AllTokensStep(lines, i);
      ghost var seen := AllTokens(lines[..i]);
      lineNumber := lineNumber + 1;
      var raw := Strip(lines[i]);
      if raw == "" {
        emptyLines := emptyLines + [lineNumber];
      } else {
        var tokens := Split(raw);
        frequencies, totalWords := CountTokens(frequencies, totalWords, tokens, seen);
      }
    }
    assert lines[..|lines|] == lines;
  }

  /**
   What `count_words` returns for a file: a key for each distinct token,
   counted as often as it occurs, every key a non-empty word without
   whitespace, and the counts adding up to the total number of tokens.
   */
  lemma WordsTally(lines: seq<string>)
    ensures var frequencies, tokens := Frequencies(AllTokens(lines)), AllTokens(lines);
      && (forall w :: w in frequencies <==> w in multiset(tokens))
      && (forall w :: w in frequencies ==>
            frequencies[w] == multiset(tokens)[w] && frequencies[w] >= 1 && |w| > 0 && NoSpace(w))
      && MapSum(frequencies) == |tokens|
  {
    FrequenciesTally(AllTokens(lines));
    TallyWords(Frequencies(AllTokens(lines)), |AllTokens(lines)|, lines);
  }

  /**
   A further line only changes the counts of its own tokens: every other
   word keeps its number of occurrences, and each of its tokens gains its
   occurrences in that line.
   */
  lemma OneMoreLine(lines: seq<string>, line: string, w: string)
    ensures multiset(AllTokens(lines + [line]))[w] ==
      multiset(AllTokens(lines))[w] + multiset(Split(line))[w]
    ensures w !in Split(line) ==>
      multiset(AllTokens(lines + [line]))[w] == multiset(AllTokens(lines))[w]
  {
    assert (lines + [line])[..|lines|] == lines;
    LineTokensAreSplit(line);
  }

  /** In the frequency tables, a further line leaves every word that is not among its tokens as it was. */
  lemma OneMoreLineCounts(lines: seq<string>, line: string, w: string)
    requires w !in Split(line)
    ensures var before, after := Frequencies(AllTokens(lines)), Frequencies(AllTokens(lines + [line]));
      (w in after <==> w in before) && (w in before ==> after[w] == before[w])
  {
    OneMoreLine(lines, line, w);
    WordsTally(lines);
    WordsTally(lines + [line]);
  }

  /** Word `u` comes before word `v` under the sort key (-count, word). */
  predicate RanksBefore(m: map<string, nat>, u: string, v: string)
    requires u in m && v in m
  {
    m[u] > m[v] || (m[u] == m[v] && LexOrder.Less(u, v))
  }

  /** `order` lists every word of `m` once, by descending count and then ascending word. */
  predicate Ranked(m: map<string, nat>, order: seq<string>) {
    && (forall k :: 0 <= k < |order| ==> order[k] in m)
    && (forall w :: w in m ==> w in order)
    && (forall p, q :: 0 <= p < q < |order| ==> RanksBefore(m, order[p], order[q]))
  }

  lemma RanksBeforeTransitive(m: map<string, nat>, u: string, v: string, w: string)
    requires u in m && v in m && w in m
    requires RanksBefore(m, u, v) && RanksBefore(m, v, w)
    ensures RanksBefore(m, u, w)
  {
    if m[u] == m[v] == m[w] {
      LexOrder.Transitive(u, v, w);
    }
  }

  lemma RanksBeforeTotal(m: map<string, nat>, u: string, v: string)
    requires u in m && v in m && u != v
    ensures RanksBefore(m, u, v) || RanksBefore(m, v, u)
  {
    LexOrder.Total(u, v);
  }

  lemma RanksBeforeAsymmetric(m: map<string, nat>, u: string, v: string)
    requires u in m && v in m && RanksBefore(m, u, v)
    ensures !RanksBefore(m, v, u) && u != v
  {
    if m[u] == m[v] {
      LexOrder.Asymmetric(u, v);
      LexOrder.Irreflexive(u);
    }
  }

  /** Every non-empty set of words has a first word under the ranking. */
  lemma {:induction false} FirstRankedExists(m: map<string, nat>, words: set<string>)
    requires words != {} && words <= m.Keys
    ensures exists w :: w in words && forall u :: u in words && u != w ==> RanksBefore(m, w, u)
    decreases |words|
  {
    var x :| x in words;
    if words == {x} {
      assert forall u :: u in words && u != x ==> RanksBefore(m, x, u);
    } else {
      var rest := words - {x};
      FirstRankedExists(m, rest);
      var y :| y in rest && forall u :: u in rest && u != y ==> RanksBefore(m, y, u);
      RanksBeforeTotal(m, x, y);
      if RanksBefore(m, x, y) {
        forall u | u in words && u != x ensures RanksBefore(m, x, u) {
          if u != y { RanksBeforeTransitive(m, x, y, u); }
        }
      } else {
        forall u | u in words && u != y ensures RanksBefore(m, y, u) {}
      }
    }
  }

  /**
   `sorted(frequencies.items(), key=lambda item: (-item[1], item[0]))`: the
   words of the table in ranking order (a library sort; the model takes the
   first remaining word in turn).
   */
  method RankWords(m: map<string, nat>) returns (order: seq<string>)
    ensures Ranked(m, order) && |order| == |m|
  {
    var remaining := m.Keys;
    order := [];
    while remaining != {}
      invariant remaining <= m.Keys
      invariant |order| + |remaining| == |m|
      invariant forall k :: 0 <= k < |order| ==> order[k] in m && order[k] !in remaining
      invariant forall w :: w in m ==> w in order || w in remaining
      invariant forall p, q :: 0 <= p < q < |order| ==> RanksBefore(m, order[p], order[q])
      invariant forall k, w :: 0 <= k < |order| && w in remaining ==> RanksBefore(m, order[k], w)
      decreases |remaining|
    {
      FirstRankedExists(m, remaining);
      var w :| w in remaining && forall u :: u in remaining && u != w ==> RanksBefore(m, w, u);
      order := order + [w];
      remaining := remaining - {w};
    }
  }

  /** A ranking is empty exactly when the table is. */
  lemma RankedEmpty(m: map<string, nat>, a: seq<string>)
    requires Ranked(m, a)
    ensures a == [] <==> |m| == 0
  {
    if a == [] {
      assert m.Keys == {};
    } else {
      assert a[0] in m.Keys;
    }
  }

  /** Two rankings of the same table start with the same word: the first-ranked one. */
  lemma RankedHead(m: map<string, nat>, a: seq<string>, b: seq<string>)
    requires Ranked(m, a) && Ranked(m, b) && a != []
    ensures b != [] && a[0] == b[0]
  {
    assert a[0] in b;
    assert b[0] in a;
    var i :| 0 <= i < |a| && a[i] == b[0];
    var j :| 0 <= j < |b| && b[j] == a[0];
    if i != 0 {
      RanksBeforeAsymmetric(m, a[0], a[i]);
    }
  }

  /** Without its first word, a ranking ranks the rest of the table. */
  lemma RankedTail(m: map<string, nat>, a: seq<string>)
    requires Ranked(m, a) && a != []
    ensures Ranked(m - {a[0]}, a[1..])
  {
    var m' := m - {a[0]};
    forall k | 0 <= k < |a| - 1 ensures a[1..][k] in m' {
      RanksBeforeAsymmetric(m, a[0], a[k + 1]);
    }
    forall w | w in m' ensures w in a[1..] {
      var i :| 0 <= i < |a| && a[i] == w;
      assert a[1..][i - 1] == w;
    }
  }

  lemma SameHeadAndTail(a: seq<string>, b: seq<string>)
    requires |a| > 0 && |b| > 0 && a[0] == b[0] && a[1..] == b[1..]
    ensures a == b
  {
    assert a == [a[0]] + a[1..] && b == [b[0]] + b[1..];
  }

  /**
   The ranking is a total order on distinct words, so there is exactly one
   ranked listing of a table: the output order is deterministic.
   */
  lemma {:induction false} RankedUnique(m: map<string, nat>, a: seq<string>, b: seq<string>)
    requires Ranked(m, a) && Ranked(m, b)
    ensures a == b
    decreases |a|
  {
    RankedEmpty(m, a);
    RankedEmpty(m, b);
    if a != [] {
      RankedHead(m, a, b);
      RankedTail(m, a);
      RankedTail(m, b);
      RankedUnique(m - {a[0]}, a[1..], b[1..]);
      SameHeadAndTail(a, b);
    }
  }

  // Column widths of the report.
  const WordWidth: nat := 20
  const CountWidth: nat := 8

  /** One report row: the word left-justified to 20, the count right-justified to 8. */
  function ResultRow(word: string, count: int): string {
    LeftJustify(word, WordWidth) + RightJustify(Numeral(count, 10), CountWidth)
  }

  /**
   A row starts with the whole word and ends with the whole count; neither
   is ever truncated, and the row is as long as the two padded columns.
   */
  lemma ResultRowLayout(word: string, count: int)
    ensures var row := ResultRow(word, count);
      var digits := Numeral(count, 10);
      && |row| == Max(|word|, WordWidth) + Max(|digits|, CountWidth)
      && row[..|word|] == word
      && row[|row| - |digits|..] == digits
  {
    var left := LeftJustify(word, WordWidth);
    var right := RightJustify(Numeral(count, 10), CountWidth);
    ConcatLeft(left, right, 0, |word|);
    ConcatRight(left, right, |left| + |right| - |Numeral(count, 10)|, |left| + |right|);
  }

  /**
   When the word and the count fit their columns the row is 28 characters:
   the word, then spaces only, then the count ending in the last column.
   */
  lemma ResultRowFits(word: string, count: int)
    requires |word| <= WordWidth && |Numeral(count, 10)| <= CountWidth
    ensures var row := ResultRow(word, count);
      var digits := Numeral(count, 10);
      && |row| == 28
      && row[..|word|] == word
      && row[28 - |digits|..] == digits
      && (forall k :: |word| <= k < 28 - |digits| ==> row[k] == ' ')
  {
    var left := LeftJustify(word, WordWidth);
    var right := RightJustify(Numeral(count, 10), CountWidth);
    var row := left + right;
    ResultRowLayout(word, count);
    forall k | |word| <= k < 28 - |Numeral(count, 10)| ensures row[k] == ' ' {
      if k < 20 { assert row[k] == left[k]; } else { assert row[k] == right[k - 20]; }
    }
  }

  /** `f` applied to each element of `s`, in order. */
  function MapSeq<A, B>(f: A -> B, s: seq<A>): (r: seq<B>)
    ensures |r| == |s|
  {
    if s == [] then [] else MapSeq(f, s[..|s| - 1]) + [f(s[|s| - 1])]
  }

  lemma {:induction false} MapSeqAt<A, B>(f: A -> B, s: seq<A>, k: nat)
    requires k < |s|
    ensures MapSeq(f, s)[k] == f(s[k])
    decreases |s|
  {
    if k < |s| - 1 {
      MapSeqAt(f, s[..|s| - 1], k);
    }
  }

  /** The (word, count) pairs of `words`, in that order. */
  function Entries(m: map<string, nat>, words: seq<string>): (r: seq<(string, nat)>)
    requires forall k :: 0 <= k < |words| ==> words[k] in m
    ensures |r| == |words|
    ensures forall k :: 0 <= k < |words| ==> r[k] == (words[k], m[words[k]])
  {
    if words == [] then []
    else
      var last := words[|words| - 1];
      Entries(m, words[..|words| - 1]) + [(last, m[last])]
  }

  function RowOf(entry: (string, nat)): string {
    ResultRow(entry.0, entry.1)
  }

  /** Builds the report rows of `words` one by one. */
  method WordRows(m: map<string, nat>, words: seq<string>) returns (lines: seq<string>)
    requires forall k :: 0 <= k < |words| ==> words[k] in m
    ensures lines == MapSeq(RowOf, Entries(m, words))
  {
    ghost var entries := Entries(m, words);
    lines := [];
    for k := 0 to |words|
      invariant lines == MapSeq(RowOf, entries[..k])
    {
      var word := words[k];
      var count := m[word];
      assert entries[..k + 1][..k] == entries[..k] && entries[k] == (word, count);
      lines := lines + [ResultRow(word, count)];
    }
    assert entries[..|words|] == entries;
  }

  /**
   `format_results`: one row per word in ranking order, then the
   `Grand Total` row with the number of tokens. `order` is the ranking the
   rows follow.
   */
  method FormatResults(frequencies: map<string, nat>, totalWords: int)
    returns (lines: seq<string>, ghost order: seq<string>)
    ensures Ranked(frequencies, order) && |order| == |frequencies|
    ensures |lines| == |frequencies| + 1
    ensures forall k :: 0 <= k < |order| ==> lines[k] == ResultRow(order[k], frequencies[order[k]])
    ensures lines[|lines| - 1] == ResultRow("Grand Total", totalWords)
  {
    var sortedItems := RankWords(frequencies);
    order := sortedItems;
    var rows := WordRows(frequencies, sortedItems);
    ghost var entries := Entries(frequencies, sortedItems);
    forall k | 0 <= k < |sortedItems|
      ensures rows[k] == ResultRow(sortedItems[k], frequencies[sortedItems[k]])
    {
      MapSeqAt(RowOf, entries, k);
    }
    lines := rows + [ResultRow("Grand Total", totalWords)];
  }

  /** A word followed by a space and the rest of a line is that word's token, then the rest's tokens. */
  lemma SplitWordThen(w: string, rest: string)
    requires NoSpace(w) && |w| > 0
    ensures Split(w + " " + rest) == [w] + Split(rest)
  {
    assert IsSpace(' ');
    SplitWord(w);
    SplitSeparated(w, ' ', rest);
  }

  /** A one-line file with three distinct words. */
  const ExampleLine: string := "a b b c c c"

  /** Six words separated by single spaces split into those six words. */
  lemma SplitSixWords(a: string, b: string, c: string)
    requires NoSpace(a) && |a| > 0 && NoSpace(b) && |b| > 0 && NoSpace(c) && |c| > 0
    ensures Split(a + " " + (b + " " + (b + " " + (c + " " + (c + " " + c))))) == [a, b, b, c, c, c]
  {
    var r1 := c;
    var r2 := c + " " + r1;
    var r3 := c + " " + r2;
    var r4 := b + " " + r3;
    var r5 := b + " " + r4;
    SplitWord(c);
    SplitWordThen(c, r1);
    SplitWordThen(c, r2);
    SplitWordThen(b, r3);
    SplitWordThen(b, r4);
    SplitWordThen(a, r5);
  }

  /** The line "a b b c c c" splits into its six one-letter words. */
  lemma ExampleSplit()
    ensures Split(ExampleLine) == ["a", "b", "b", "c", "c", "c"]
  {
    assert !IsSpace('a') && !IsSpace('b') && !IsSpace('c');
    SplitSixWords("a", "b", "c");
    assert "a" + " " + ("b" + " " + ("b" + " " + ("c" + " " + ("c" + " " + "c")))) == ExampleLine;
  }

  /** The tokens of the one-line file "a b b c c c". */
  lemma ExampleTokens()
    ensures AllTokens([ExampleLine]) == ["a", "b", "b", "c", "c", "c"]
  {
    var lines := [ExampleLine];
    assert lines[..0] == [];
    LineTokensAreSplit(lines[0]);
    ExampleSplit();
  }

  /** Counting the six tokens one by one gives a: 1, b: 2, c: 3. */
  lemma ExampleFrequencies()
    ensures Frequencies(["a", "b", "b", "c", "c", "c"]) == map["a" := 1, "b" := 2, "c" := 3]
  {
    var t := ["a", "b", "b", "c", "c", "c"];
    assert t[..0] == [];
    assert t[..1][..0] == [];
    assert Frequencies(t[..1]) == map["a" := 1];
    assert t[..2][..1] == t[..1];
    assert Frequencies(t[..2]) == map["a" := 1, "b" := 1];
    assert t[..3][..2] == t[..2];
    assert Frequencies(t[..3]) == map["a" := 1, "b" := 2];
    assert t[..4][..3] == t[..3];
    assert Frequencies(t[..4]) == map["a" := 1, "b" := 2, "c" := 1];
    assert t[..5][..4] == t[..4];
    assert Frequencies(t[..5]) == map["a" := 1, "b" := 2, "c" := 2];
    assert t[..6] == t && t[..5] == t[..|t| - 1];
  }

  /** The table a: 1, b: 2, c: 3 ranks c (3), then b (2), then a (1). */
  lemma ExampleRanked()
    ensures Ranked(map["a" := 1, "b" := 2, "c" := 3], ["c", "b", "a"])
  {
    var m := map["a" := 1, "b" := 2, "c" := 3];
    var order := ["c", "b", "a"];
    forall w | w in m ensures w in order {
      assert w == "a" || w == "b" || w == "c";
      assert order[0] == "c" && order[1] == "b" && order[2] == "a";
    }
  }

  /**
   The file holding the one line "a b b c c c" has 6 words and the table
   a: 1, b: 2, c: 3, which ranks c (3), then b (2), then a (1).
   */
  lemma RankingExample()
    ensures Frequencies(AllTokens([ExampleLine])) == map["a" := 1, "b" := 2, "c" := 3]
    ensures |AllTokens([ExampleLine])| == 6
    ensures Ranked(Frequencies(AllTokens([ExampleLine])), ["c", "b", "a"])
  {
    ExampleTokens();
    ExampleFrequencies();
    ExampleRanked();
  }

  /** Equal counts are broken alphabetically, not by first appearance. */
  lemma TieExample()
    ensures Ranked(map["b" := 2, "a" := 2], ["a", "b"])
    ensures !Ranked(map["b" := 2, "a" := 2], ["b", "a"])
  {
    var m := map["b" := 2, "a" := 2];
    assert LexOrder.Less("a", "b");
    assert !LexOrder.Less("b", "a");
    assert !RanksBefore(m, "b", "a");
    var order := ["a", "b"];
    forall w | w in m ensures w in order {
      assert w == "a" || w == "b";
      assert order[0] == "a" && order[1] == "b";
    }
  }
}
