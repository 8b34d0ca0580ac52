/**
 Python's `str.strip()` and `str.split()` (no arguments) restricted to ASCII:
 the whitespace characters are those for which `str.isspace()` holds among
 the first 128 code points (tab, line feed, vertical tab, form feed,
 carriage return, the four information separators 0x1C-0x1F, and space).
 */
module Whitespace {

  predicate IsSpace(c: char) {
    c == ' ' || 9 <= c as int <= 13 || 28 <= c as int <= 31
  }

  predicate NoSpace(t: string) {
    forall k :: 0 <= k < |t| ==> !IsSpace(t[k])
  }

  predicate AllSpace(t: string) {
    forall k :: 0 <= k < |t| ==> IsSpace(t[k])
  }

  /** `s` without its leading whitespace. */
  function TrimLeft(s: string): (r: string)
    ensures r == [] || !IsSpace(r[0])
  {
    if s != [] && IsSpace(s[0]) then TrimLeft(s[1..]) else s
  }

  /** `s` without its trailing whitespace. */
  function TrimRight(s: string): (r: string)
    ensures r == [] || !IsSpace(r[|r| - 1])
  {
    if s != [] && IsSpace(s[|s| - 1]) then TrimRight(s[..|s| - 1]) else s
  }

  /**
   Removing leading whitespace keeps a suffix of `s`, and all that it
   removes is whitespace.
   */
  lemma {:induction false} TrimLeftRemovesSpace(s: string)
    ensures var r := TrimLeft(s);
      |r| <= |s| && r == s[|s| - |r|..] && AllSpace(s[..|s| - |r|])
    decreases |s|
  {
    if s != [] && IsSpace(s[0]) {
      var t, r := s[1..], TrimLeft(s[1..]);
      assert TrimLeft(s) == r;
      TrimLeftRemovesSpace(t);
      var m := |s| - |r|;
      assert t[m - 1..] == s[m..];
      var removed, removedAfter := s[..m], t[..m - 1];
      assert AllSpace(removedAfter);
      forall k | 0 <= k < m ensures IsSpace(removed[k]) {
        if k > 0 { assert removed[k] == removedAfter[k - 1]; }
      }
      assert AllSpace(removed);
    }
  }

  /**
   Removing trailing whitespace keeps a prefix of `s`, and all that it
   removes is whitespace.
   */
  lemma {:induction false} TrimRightRemovesSpace(s: string)
    ensures var r := TrimRight(s);
      |r| <= |s| && r == s[..|r|] && AllSpace(s[|r|..])
    decreases |s|
  {
    if s != [] && IsSpace(s[|s| - 1]) {
      var init := s[..|s| - 1];
      var r := TrimRight(init);
      assert TrimRight(s) == r;
      TrimRightRemovesSpace(init);
      assert init[..|r|] == s[..|r|];
      forall k | 0 <= k < |s| - |r| ensures IsSpace(s[|r|..][k]) {
        if k < |s| - 1 - |r| { assert s[|r| + k] == init[|r|..][k]; }
      }
    }
  }

  /** `str.strip()`: neither end of the result is whitespace. */
  function Strip(s: string): (r: string)
    ensures r == [] || (!IsSpace(r[0]) && !IsSpace(r[|r| - 1]))
  {
    var t := TrimLeft(s);
    TrimRightRemovesSpace(t);
    TrimRight(t)
  }

  /** The characters of `s` that are not whitespace, in order. */
  function NonSpace(s: string): (r: string)
    ensures NoSpace(r)
  {
    if s == [] then ""
    else if IsSpace(s[0]) then NonSpace(s[1..])
    else [s[0]] + NonSpace(s[1..])
  }

  /** The tokens one after the other, with nothing between them. */
  function Concat(ts: seq<string>): string {
    if ts == [] then "" else ts[0] + Concat(ts[1..])
  }

  /**
   Splitting the rest `s` of a line when the characters of the token being
   read so far are `current`: a token ends at each run of whitespace and at
   the end of the line, and empty tokens are never produced.
   */
  function SplitFrom(s: string, current: string): (r: seq<string>)
    requires NoSpace(current)
    ensures forall k :: 0 <= k < |r| ==> |r[k]| > 0 && NoSpace(r[k])
    ensures Concat(r) == current + NonSpace(s)
    decreases |s|
  {
    if s == [] then
      if current == [] then [] else assert [current][1..] == []; [current]
    else if IsSpace(s[0]) then
      if current == [] then SplitFrom(s[1..], [])
      else
        var rest := SplitFrom(s[1..], []);
        assert ([current] + rest)[1..] == rest;
        [current] + rest
    else
      var r := SplitFrom(s[1..], current + [s[0]]);
      assert current + [s[0]] + NonSpace(s[1..]) == current + NonSpace(s);
      r
  }

  /** `str.split()`: the maximal runs of non-whitespace characters. */
  function Split(s: string): (r: seq<string>)
    ensures forall k :: 0 <= k < |r| ==> |r[k]| > 0 && NoSpace(r[k])
    ensures Concat(r) == NonSpace(s)
  {
    assert [] + NonSpace(s) == NonSpace(s);
    SplitFrom(s, [])
  }

  /** A run of non-whitespace characters is one token: it is never broken up. */
  lemma {:induction false} SplitFromWord(w: string, current: string)
    requires NoSpace(w) && NoSpace(current) && |current + w| > 0
    ensures SplitFrom(w, current) == [current + w]
    decreases |w|
  {
    if w == [] {
      assert current + w == current;
    } else {
      assert current + [w[0]] + w[1..] == current + w;
      SplitFromWord(w[1..], current + [w[0]]);
    }
  }

  /** A word with no whitespace splits into itself. */
  lemma SplitWord(w: string)
    requires NoSpace(w) && |w| > 0
    ensures Split(w) == [w]
  {
    SplitFromWord(w, []);
    assert [] + w == w;
  }

  lemma {:induction false} SplitFromSeparated(a: string, c: char, b: string, current: string)
    requires IsSpace(c) && NoSpace(current)
    ensures SplitFrom(a + [c] + b, current) == SplitFrom(a, current) + Split(b)
    decreases |a|
  {
    var s := a + [c] + b;
    if a == [] {
      assert s[0] == c && s[1..] == b;
    } else {
      assert s[0] == a[0] && s[1..] == a[1..] + [c] + b;
      if IsSpace(a[0]) {
        SplitFromSeparated(a[1..], c, b, []);
        if current != [] {
          assert [current] + (SplitFrom(a[1..], []) + Split(b))
              == ([current] + SplitFrom(a[1..], [])) + Split(b);
        }
      } else {
        SplitFromSeparated(a[1..], c, b, current + [a[0]]);
      }
    }
  }

  /** A whitespace character always separates tokens: the tokens on either side are split apart. */
  lemma SplitSeparated(a: string, c: char, b: string)
    requires IsSpace(c)
    ensures Split(a + [c] + b) == Split(a) + Split(b)
  {
    SplitFromSeparated(a, c, b, []);
  }

  /** Leading whitespace does not change the tokens. */
  lemma {:induction false} SplitTrimLeft(s: string)
    ensures Split(TrimLeft(s)) == Split(s)
    decreases |s|
  {
    if s != [] && IsSpace(s[0]) {
      SplitTrimLeft(s[1..]);
    }
  }

  /** One trailing whitespace character does not change the tokens. */
  lemma {:induction false} SplitFromTrailingSpace(t: string, c: char, current: string)
    requires IsSpace(c) && NoSpace(current)
    ensures SplitFrom(t + [c], current) == SplitFrom(t, current)
    decreases |t|
  {
    var s := t + [c];
    if t == [] {
      assert s[1..] == [];
    } else {
      assert s[0] == t[0] && s[1..] == t[1..] + [c];
      if IsSpace(t[0]) {
        SplitFromTrailingSpace(t[1..], c, []);
      } else {
        SplitFromTrailingSpace(t[1..], c, current + [t[0]]);
      }
    }
  }

  /** Trailing whitespace does not change the tokens. */
  lemma {:induction false} SplitTrimRight(s: string)
    ensures Split(TrimRight(s)) == Split(s)
    decreases |s|
  {
    if s != [] && IsSpace(s[|s| - 1]) {
      var init := s[..|s| - 1];
      assert s == init + [s[|s| - 1]];
      SplitFromTrailingSpace(init, s[|s| - 1], []);
      SplitTrimRight(init);
    }
  }

  /** Stripping a line does not change its tokens. */
  lemma SplitStrip(s: string)
    ensures Split(Strip(s)) == Split(s)
  {
    SplitTrimRight(TrimLeft(s));
    SplitTrimLeft(s);
  }

  lemma {:induction false} TrimLeftEmpty(s: string)
    ensures TrimLeft(s) == "" <==> AllSpace(s)
    decreases |s|
  {
    if s != [] && IsSpace(s[0]) {
      TrimLeftEmpty(s[1..]);
      assert AllSpace(s) <==> AllSpace(s[1..]) by {
        if AllSpace(s[1..]) {
          forall k | 0 <= k < |s| ensures IsSpace(s[k]) {
            if k > 0 { assert s[k] == s[1..][k - 1]; }
          }
        }
      }
    }
  }

  lemma {:induction false} TrimRightEmpty(s: string)
    ensures TrimRight(s) == "" <==> AllSpace(s)
    decreases |s|
  {
    if s != [] && IsSpace(s[|s| - 1]) {
      var init := s[..|s| - 1];
      TrimRightEmpty(init);
      assert AllSpace(s) <==> AllSpace(init) by {
        if AllSpace(init) {
          forall k | 0 <= k < |s| ensures IsSpace(s[k]) {
            if k < |s| - 1 { assert s[k] == init[k]; }
          }
        }
      }
    }
  }

  lemma {:induction false} NonSpaceEmpty(s: string)
    ensures NonSpace(s) == "" <==> AllSpace(s)
    decreases |s|
  {
    if s != [] {
      NonSpaceEmpty(s[1..]);
      assert AllSpace(s) <==> IsSpace(s[0]) && AllSpace(s[1..]) by {
        if IsSpace(s[0]) && AllSpace(s[1..]) {
          forall k | 0 <= k < |s| ensures IsSpace(s[k]) {
            if k > 0 { assert s[k] == s[1..][k - 1]; }
          }
        }
      }
    }
  }

  /**
   A line is empty after stripping exactly when it has no tokens, so the
   blank-line check skips precisely the lines that contribute nothing.
   */
  lemma BlankIffNoTokens(s: string)
    ensures Strip(s) == "" <==> Split(s) == []
  {
    var r := Split(s);
    TrimLeftEmpty(s);
    TrimRightEmpty(TrimLeft(s));
    NonSpaceEmpty(s);
    assert Strip(s) == "" <==> AllSpace(s) by {
      if TrimLeft(s) != "" {
        var t := TrimLeft(s);
        assert !IsSpace(t[0]);
        assert !AllSpace(t);
      }
    }
    if r != [] {
      assert Concat(r) == r[0] + Concat(r[1..]);
    }
  }
}
