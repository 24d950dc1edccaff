/** The comic name normaliser of `NameConverter.normalizeFileName`: a total rewrite of a
    raw file or directory name into the canonical name used for output files and as the
    key for collision detection.  Every regular expression of the source is replaced by
    a hand-written function over `string`. */
module NameConverter {
  import opened Text

  // ---------------------------------------------------------------------------------
  // Step 1: the extension
  // ---------------------------------------------------------------------------------

  /** The base name and the extension (with its dot).  The extension is the text after
      the last `.`, trimmed and lower-cased; the base is the text before it, trimmed.
      A name without `.` is all base, untrimmed, and has no extension. */
  function SplitExtension(fileName: string): (string, string)
  {
    var k := LastIndexOf(fileName, '.');
    if k < 0 then (fileName, "")
    else (Trim(fileName[..k]), "." + LowerStr(Trim(fileName[k + 1..])))
  }

  // ---------------------------------------------------------------------------------
  // Step 2: annotations in brackets
  // ---------------------------------------------------------------------------------

  /** `replaceAll("\\[[^\\]]*\\]", "")` for `open, close == '[', ']'` and the same with
      parentheses: an `open` that has a `close` somewhere after it starts a group that
      runs to the first such `close`; the group is dropped.  An `open` with no `close`
      after it is kept. */
  function RemoveGroups(s: string, open: char, close: char): (r: string)
    ensures |r| <= |s|
    ensures forall c :: c in r ==> c in s
    decreases |s|
  {
    if s == [] then []
    else if s[0] == open && close in s[1..] then
      var rest := s[IndexOf(s[1..], close) + 2..];
      var r := RemoveGroups(rest, open, close);
      assert forall c :: c in rest ==> c in s;
      r
    else
      [s[0]] + RemoveGroups(s[1..], open, close)
  }

  /** No `open` is followed, anywhere later, by a `close`: no complete group is left. */
  predicate NoCompleteGroup(s: string, open: char, close: char) {
    forall i, j :: 0 <= i < j < |s| && s[i] == open ==> s[j] != close
  }

  /** After removal no complete group is left, even where a group held a stray `open`. */
  lemma {:induction false} RemoveGroupsLeavesNone(s: string, open: char, close: char)
    requires open != close
    ensures NoCompleteGroup(RemoveGroups(s, open, close), open, close)
    decreases |s|
  {
    if s == [] {
    } else if s[0] == open && close in s[1..] {
      RemoveGroupsLeavesNone(s[IndexOf(s[1..], close) + 2..], open, close);
    } else {
      var tail := RemoveGroups(s[1..], open, close);
      RemoveGroupsLeavesNone(s[1..], open, close);
      var r := [s[0]] + tail;
      assert r == RemoveGroups(s, open, close);
      forall i, j | 0 <= i < j < |r| && r[i] == open
        ensures r[j] != close
      {
        if i == 0 {
          assert r[j] == tail[j - 1];
          assert r[j] in s[1..];
        } else {
          assert r[i] == tail[i - 1] && r[j] == tail[j - 1];
        }
      }
    }
  }

  /** Removal changes a string exactly when it holds a complete group. */
  lemma {:induction false} RemoveGroupsFixpoint(s: string, open: char, close: char)
    requires open != close
    ensures RemoveGroups(s, open, close) == s <==> NoCompleteGroup(s, open, close)
    decreases |s|
  {
    RemoveGroupsLeavesNone(s, open, close);
    if s != [] && NoCompleteGroup(s, open, close) {
      assert NoCompleteGroup(s[1..], open, close) by {
        forall i, j | 0 <= i < j < |s[1..]| && s[1..][i] == open
          ensures s[1..][j] != close
        {
          assert s[i + 1] == open;
        }
      }
      RemoveGroupsFixpoint(s[1..], open, close);
    }
  }

  /** A complete group is cut out and the text around it is kept: with no `open` before
      it and no `close` inside it, `pre + open + g + close + post` loses exactly the
      group (so `[TM[Whatever Comics]` goes as a whole). */
  lemma {:induction false} RemoveGroupsCutsGroup(pre: string, g: string, post: string, open: char, close: char)
    requires open !in pre && close !in g
    ensures RemoveGroups(pre + [open] + g + [close] + post, open, close)
         == pre + RemoveGroups(post, open, close)
    decreases |pre|
  {
    var s := pre + [open] + g + [close] + post;
    if pre == [] {
      assert s[1..] == g + [close] + post;
      assert s[1..][|g|] == close;
      var k := IndexOf(s[1..], close);
      assert k == |g|;
      assert s[k + 2..] == post;
    } else {
      assert s[0] == pre[0];
      assert s[1..] == pre[1..] + [open] + g + [close] + post;
      RemoveGroupsCutsGroup(pre[1..], g, post, open, close);
    }
  }

  // ---------------------------------------------------------------------------------
  // Step 3: runs of white space
  // ---------------------------------------------------------------------------------

  /** The length of the run of white space that starts `s`. */
  function SpaceRun(s: string): (n: nat)
    ensures n <= |s|
    ensures forall i :: 0 <= i < n ==> IsSpace(s[i])
    ensures n < |s| ==> !IsSpace(s[n])
  {
    SpacesFrom(s, 0)
  }

  function SpacesFrom(s: string, b: nat): (n: nat)
    requires b <= |s|
    ensures b + n <= |s|
    ensures forall i :: b <= i < b + n ==> IsSpace(s[i])
    ensures b + n < |s| ==> !IsSpace(s[b + n])
    decreases |s| - b
  {
    if b == |s| || !IsSpace(s[b]) then 0 else 1 + SpacesFrom(s, b + 1)
  }

  /** The length of the run of non-white-space that starts `s`. */
  function WordRun(s: string): (n: nat)
    ensures n <= |s|
    ensures forall i :: 0 <= i < n ==> !IsSpace(s[i])
    ensures n < |s| ==> IsSpace(s[n])
  {
    WordCharsFrom(s, 0)
  }

  function WordCharsFrom(s: string, b: nat): (n: nat)
    requires b <= |s|
    ensures b + n <= |s|
    ensures forall i :: b <= i < b + n ==> !IsSpace(s[i])
    ensures b + n < |s| ==> IsSpace(s[b + n])
    decreases |s| - b
  {
    if b == |s| || IsSpace(s[b]) then 0 else 1 + WordCharsFrom(s, b + 1)
  }

  /** `replaceAll("\\s{2,}", " ")`: every run of two or more white-space characters
      becomes one space; a single white-space character is kept as it is. */
  function CollapseSpaces(s: string): (r: string)
    ensures s != [] && IsSpace(s[0]) ==> r != [] && IsSpace(r[0])
    decreases |s|
  {
    if s == [] then []
    else if IsSpace(s[0]) then
      var n := SpaceRun(s);
      (if n >= 2 then " " else [s[0]]) + CollapseSpaces(s[n..])
    else
      var n := WordRun(s);
      s[..n] + CollapseSpaces(s[n..])
  }

  /** No two white-space characters stand next to each other. */
  predicate NoDoubleSpace(s: string) {
    forall i :: 0 <= i < |s| - 1 && IsSpace(s[i]) ==> !IsSpace(s[i + 1])
  }

  /** Collapsing never lengthens a string. */
  lemma {:induction false} CollapseSpacesLength(s: string)
    ensures |CollapseSpaces(s)| <= |s|
    decreases |s|
  {
    if s != [] {
      var n := if IsSpace(s[0]) then SpaceRun(s) else WordRun(s);
      assert n >= 1;
      CollapseSpacesLength(s[n..]);
    }
  }

  /** Collapsing changes a string exactly when two white-space characters are adjacent. */
  lemma {:induction false} CollapseSpacesFixpoint(s: string)
    ensures CollapseSpaces(s) == s <==> NoDoubleSpace(s)
    decreases |s|, 1
  {
    if s != [] {
      CollapseSpacesFixpointStep(s);
    }
  }

  lemma {:induction false} CollapseSpacesFixpointStep(s: string)
    requires s != []
    ensures CollapseSpaces(s) == s <==> NoDoubleSpace(s)
    decreases |s|, 0
  {
    var n := if IsSpace(s[0]) then SpaceRun(s) else WordRun(s);
    NoDoubleSpaceSplit(s, n);
    if IsSpace(s[0]) && n >= 2 {
      CollapseSpacesLength(s[n..]);
    } else {
      CollapseSpacesFixpoint(s[n..]);
      CollapseFirstRun(s);
      KeptRun(s, n, s[n..], CollapseSpaces(s[n..]));
    }
  }

  /** The reasoning of one step of `CollapseSpacesFixpoint`, on names for its parts. */
  lemma KeptRun(s: string, n: nat, rest: string, c: string)
    requires n <= |s| && rest == s[n..]
    requires c == rest <==> NoDoubleSpace(rest)
    requires CollapseSpaces(s) == s[..n] + c
    requires NoDoubleSpace(s) <==> NoDoubleSpace(rest)
    ensures CollapseSpaces(s) == s <==> NoDoubleSpace(s)
  {
    ConcatSame(s[..n], c, rest);
    assert s == s[..n] + rest;
  }

  /** Collapsing keeps a first run that is a word or a single white-space character. */
  lemma CollapseFirstRun(s: string)
    requires s != []
    requires IsSpace(s[0]) ==> SpaceRun(s) == 1
    ensures var n := if IsSpace(s[0]) then 1 else WordRun(s);
      CollapseSpaces(s) == s[..n] + CollapseSpaces(s[n..])
  {
    if IsSpace(s[0]) {
      assert s[..1] == [s[0]];
    }
  }

  /** Splitting off a first run of one kind: the whole has no double space exactly when
      the rest has none and the run is not a double space. */
  lemma NoDoubleSpaceSplit(s: string, n: nat)
    requires 1 <= n <= |s|
    requires IsSpace(s[0]) ==> n == SpaceRun(s)
    requires !IsSpace(s[0]) ==> n == WordRun(s)
    ensures NoDoubleSpace(s) <==> NoDoubleSpace(s[n..]) && !(IsSpace(s[0]) && n >= 2)
  {
    var rest := s[n..];
    if NoDoubleSpace(s) {
      forall i | 0 <= i < |rest| - 1 && IsSpace(rest[i])
        ensures !IsSpace(rest[i + 1])
      {
        assert rest[i] == s[n + i] && rest[i + 1] == s[n + i + 1];
      }
    }
    if IsSpace(s[0]) && n >= 2 {
      assert IsSpace(s[0]) && IsSpace(s[1]);
    }
    if NoDoubleSpace(rest) && !(IsSpace(s[0]) && n >= 2) {
      forall i | 0 <= i < |s| - 1 && IsSpace(s[i])
        ensures !IsSpace(s[i + 1])
      {
        if i >= n {
          assert s[i + 1] == rest[i - n + 1];
        }
      }
    }
  }

  // ---------------------------------------------------------------------------------
  // Step 4: words and capitals
  // ---------------------------------------------------------------------------------

  /** The non-empty pieces of `split("\\s+")`: the maximal runs of non-white-space.
      (Java's split also yields an empty first piece when `s` starts with white space;
      joined with spaces it only adds a leading space, which the following `trim`
      removes, so it is not kept here.) */
  function Tokens(s: string): (ts: seq<string>)
    ensures forall k :: 0 <= k < |ts| ==> IsWord(ts[k])
    ensures forall k, i :: 0 <= k < |ts| && 0 <= i < |ts[k]| ==> ts[k][i] in s
    decreases |s|
  {
    if s == [] then []
    else if IsSpace(s[0]) then Tokens(s[1..])
    else
      var n := WordRun(s);
      var ts := [s[..n]] + Tokens(s[n..]);
      assert forall k, i :: 1 <= k < |ts| && 0 <= i < |ts[k]| ==> ts[k][i] in s[n..];
      ts
  }

  /** A token: non-empty and free of white space. */
  predicate IsWord(t: string) {
    t != [] && forall i :: 0 <= i < |t| ==> !IsSpace(t[i])
  }

  lemma {:induction false} TokensSkipSpaces(s: string, n: nat)
    requires n <= |s| && forall i :: 0 <= i < n ==> IsSpace(s[i])
    ensures Tokens(s) == Tokens(s[n..])
    decreases n
  {
    if n > 0 {
      assert s[1..][n - 1..] == s[n..];
      TokensSkipSpaces(s[1..], n - 1);
    }
  }

  /** A word followed by nothing or by white space is one token. */
  lemma {:induction false} TokensAfterWord(w: string, rest: string)
    requires IsWord(w)
    requires rest == [] || IsSpace(rest[0])
    ensures Tokens(w + rest) == [w] + Tokens(rest)
  {
    WordRunOf(w, rest);
    assert (w + rest)[..|w|] == w && (w + rest)[|w|..] == rest;
  }

  lemma WordRunOf(w: string, rest: string)
    requires forall i :: 0 <= i < |w| ==> !IsSpace(w[i])
    requires rest == [] || IsSpace(rest[0])
    ensures WordRun(w + rest) == |w|
  {
    var s := w + rest;
    assert forall i :: 0 <= i < |w| ==> s[i] == w[i];
    if |w| < |s| {
      assert s[|w|] == rest[0];
    }
  }

  /** Collapsing white space does not change the tokens, so step 3 only matters for the
      white space that step 4 then splits on. */
  lemma {:induction false} CollapseKeepsTokens(s: string)
    ensures Tokens(CollapseSpaces(s)) == Tokens(s)
    decreases |s|
  {
    if s == [] {
    } else if IsSpace(s[0]) {
      CollapseKeepsTokens(s[SpaceRun(s)..]);
      CollapseSpaceRunKeepsTokens(s);
    } else {
      var n := WordRun(s);
      CollapseKeepsTokens(s[n..]);
      WordSplit(s);
      CollapseWordKeepsTokens(s[..n], s[n..]);
    }
  }

  /** The step of `CollapseKeepsTokens` for a leading run of white space. */
  lemma CollapseSpaceRunKeepsTokens(s: string)
    requires s != [] && IsSpace(s[0])
    requires Tokens(CollapseSpaces(s[SpaceRun(s)..])) == Tokens(s[SpaceRun(s)..])
    ensures Tokens(CollapseSpaces(s)) == Tokens(s)
  {
    var n := SpaceRun(s);
    var head: string := if n >= 2 then " " else [s[0]];
    var c := CollapseSpaces(s[n..]);
    assert CollapseSpaces(s) == head + c;
    assert (head + c)[1..] == c;
    TokensSkipSpaces(head + c, 1);
    TokensSkipSpaces(s, n);
  }

  /** A string that starts with a word is that word followed by nothing or by white
      space. */
  lemma WordSplit(s: string)
    requires s != [] && !IsSpace(s[0])
    ensures var n := WordRun(s);
      && IsWord(s[..n]) && (s[n..] == [] || IsSpace(s[n..][0]))
      && s == s[..n] + s[n..]
  {
  }

  /** The step of `CollapseKeepsTokens` for a leading word. */
  lemma CollapseWordKeepsTokens(w: string, r: string)
    requires IsWord(w) && (r == [] || IsSpace(r[0]))
    requires Tokens(CollapseSpaces(r)) == Tokens(r)
    ensures Tokens(CollapseSpaces(w + r)) == Tokens(w + r)
  {
    var c := CollapseSpaces(r);
    CollapseWordPrefix(w, r);
    TokensAfterWord(w, c);
    TokensAfterWord(w, r);
  }

  /** `StringUtils.capitalize`: the first character in title case, the rest unchanged. */
  function Capitalize(t: string): (r: string)
    ensures |r| == |t|
    ensures t != [] ==> r[0] == ToTitle(t[0]) && r[1..] == t[1..]
  {
    if t == [] then [] else [ToTitle(t[0])] + t[1..]
  }

  function CapitalizeAll(ts: seq<string>): (rs: seq<string>)
    ensures |rs| == |ts| && forall k :: 0 <= k < |ts| ==> rs[k] == Capitalize(ts[k])
  {
    seq(|ts|, k requires 0 <= k < |ts| => Capitalize(ts[k]))
  }

  /** The case step: lower-case, dots to spaces, split on white space, capitalise each
      token, join with single spaces, trim. */
  function CaseWords(s: string): string
  {
    Trim(Join(" ", CapitalizeAll(Tokens(Replace(LowerStr(s), '.', ' ')))))
  }

  /** Position `i` starts a word: it is the first position or follows white space. */
  predicate WordStart(s: string, i: int)
    requires 0 <= i < |s|
  {
    i == 0 || IsSpace(s[i - 1])
  }

  /** Title case, position by position: the first character of every word is not a
      lower-case letter and no other character is an upper-case letter. */
  predicate TitleCase(s: string) {
    forall i :: 0 <= i < |s| ==>
      if WordStart(s, i) then !IsLowerLetter(s[i]) else !IsUpperLetter(s[i])
  }

  /** The character at `i` of `s` with the start of its word in title case. */
  function TitleAt(s: string, i: int): char
    requires 0 <= i < |s|
  {
    if WordStart(s, i) then ToTitle(s[i]) else s[i]
  }

  /** Every word start of `s` in title case, every other character kept. */
  function TitleStr(s: string): (r: string)
    ensures |r| == |s|
    ensures forall i :: 0 <= i < |s| ==> r[i] == TitleAt(s, i)
  {
    seq(|s|, i requires 0 <= i < |s| => TitleAt(s, i))
  }

  /** Title-casing works across a single space. */
  lemma TitleStrAround(a: string, b: string)
    ensures TitleStr(a + " " + b) == TitleStr(a) + " " + TitleStr(b)
  {
    var s := a + " " + b;
    var r := TitleStr(a) + " " + TitleStr(b);
    forall i | 0 <= i < |s|
      ensures TitleStr(s)[i] == r[i]
    {
      if i < |a| {
        assert WordStart(s, i) == WordStart(a, i);
      } else if i > |a| {
        var i' := i - |a| - 1;
        assert s[i] == b[i'];
        assert WordStart(s, i) == WordStart(b, i');
      }
    }
  }

  /** On a single word, capitalising is title-casing. */
  lemma CapitalizeWord(t: string)
    requires IsWord(t)
    ensures Capitalize(t) == TitleStr(t)
  {
    assert forall i :: 0 < i < |t| ==> Capitalize(t)[i] == Capitalize(t)[1..][i - 1];
  }

  /** Capitalising each word and then joining is title-casing the join. */
  lemma {:induction false} JoinCapitalize(ts: seq<string>)
    requires forall k :: 0 <= k < |ts| ==> IsWord(ts[k])
    ensures Join(" ", CapitalizeAll(ts)) == TitleStr(Join(" ", ts))
  {
    if |ts| == 1 {
      CapitalizeWord(ts[0]);
    } else if |ts| >= 2 {
      JoinCapitalize(ts[1..]);
      CapitalizeWord(ts[0]);
      assert CapitalizeAll(ts)[1..] == CapitalizeAll(ts[1..]);
      TitleStrAround(ts[0], Join(" ", ts[1..]));
    }
  }

  /** A suffix of a singly spaced string that starts with a word is singly spaced. */
  lemma SpacedSuffix(s: string, k: nat)
    requires Spaced(s) && k < |s| && !IsSpace(s[k])
    ensures Spaced(s[k..])
  {
    var t := s[k..];
    forall i | 0 <= i < |t| && IsSpace(t[i])
      ensures SingleSpace(t, i)
    {
      assert SingleSpace(s, k + i);
    }
  }

  /** A string that starts with a word has that word as its first token. */
  lemma FirstToken(s: string)
    requires s != [] && !IsSpace(s[0])
    ensures var n := WordRun(s); Tokens(s) == [s[..n]] + Tokens(s[n..])
  {
  }

  lemma JoinCons(w: string, ts: seq<string>)
    requires ts != []
    ensures Join(" ", [w] + ts) == w + " " + Join(" ", ts)
  {
    assert ([w] + ts)[1..] == ts;
  }

  /** A singly spaced string with words at both ends is the join of its tokens. */
  lemma {:induction false} JoinTokens(s: string)
    requires Spaced(s) && (s == [] || (!IsSpace(s[0]) && !IsSpace(s[|s| - 1])))
    ensures Join(" ", Tokens(s)) == s
    decreases |s|
  {
    if s != [] {
      var n := WordRun(s);
      if n < |s| {
        AfterFirstWord(s);
        var t := s[n + 1..];
        JoinTokens(t);
        JoinTokensStep(s);
      } else {
        OneWordJoin(s);
      }
    }
  }

  /** What follows the first word of a singly spaced string with words at both ends, and
      the single space after that word, is again such a string. */
  lemma AfterFirstWord(s: string)
    requires Spaced(s) && s != [] && !IsSpace(s[0]) && !IsSpace(s[|s| - 1])
    requires WordRun(s) < |s|
    ensures SingleSpace(s, WordRun(s))
    ensures var t := s[WordRun(s) + 1..];
      Spaced(t) && t != [] && !IsSpace(t[0]) && !IsSpace(t[|t| - 1])
  {
    var n := WordRun(s);
    assert SingleSpace(s, n);
    SpacedSuffix(s, n + 1);
  }

  /** A single word is the join of its tokens. */
  lemma OneWordJoin(s: string)
    requires s != [] && !IsSpace(s[0]) && WordRun(s) == |s|
    ensures Join(" ", Tokens(s)) == s
  {
    FirstToken(s);
    assert s[..|s|] == s;
  }

  /** One step of `JoinTokens`: the first word, a space, and the rest. */
  lemma JoinTokensStep(s: string)
    requires s != [] && !IsSpace(s[0])
    requires WordRun(s) < |s| && SingleSpace(s, WordRun(s))
    requires Join(" ", Tokens(s[WordRun(s) + 1..])) == s[WordRun(s) + 1..]
    ensures Join(" ", Tokens(s)) == s
  {
    var n := WordRun(s);
    var w, tail := s[..n], s[n + 1..];
    TokensStep(s);
    var ts := Tokens(tail);
    TokensOfWord(tail);
    JoinCons(w, ts);
    SplitAtSpace(s, n);
  }

  /** A string that starts with a word has a token. */
  lemma TokensOfWord(t: string)
    requires t != [] && !IsSpace(t[0])
    ensures Tokens(t) != []
  {
  }

  lemma SplitAtSpace(s: string, n: nat)
    requires n < |s| && s[n] == ' '
    ensures s == s[..n] + " " + s[n + 1..]
  {
    assert s == s[..n] + [s[n]] + s[n + 1..];
  }

  /** The tokens of a string that starts with a word followed by a single space: that
      word, then the tokens after the space. */
  lemma TokensStep(s: string)
    requires s != [] && !IsSpace(s[0])
    requires WordRun(s) < |s| && SingleSpace(s, WordRun(s))
    ensures Tokens(s) == [s[..WordRun(s)]] + Tokens(s[WordRun(s) + 1..])
  {
    var n := WordRun(s);
    FirstToken(s);
    TokensSkipSpaces(s[n..], 1);
    assert s[n..][1..] == s[n + 1..];
  }

  // ---------------------------------------------------------------------------------
  // Step 5: numbering
  // ---------------------------------------------------------------------------------

  /** `(\d+) (De|Of) (\d+)$`: the name ends in a bounded-collection number such as
      `1 De 54` (the capitalised form the case step leaves). */
  predicate IsLimited(name: string) {
    var m := |name| - TrailingDigits(name);
    m < |name| && m >= 5 && (name[m - 4..m] == " De " || name[m - 4..m] == " Of ")
    && IsDigit(name[m - 5])
  }

  /** `replaceNumbers(name, "(\\d+) [Ll][Uu] (\\d+)$", "%s lu %s")` with `lower == "lu"`
      and `upper == "LU"`: when the name ends in digits, a space, the two-letter word in
      either case per letter, a space and digits, the word is rewritten as `lower`. */
  function ReplaceNumbers(name: string, lower: string, upper: string): string
    requires |lower| == 2 && |upper| == 2
  {
    var m := |name| - TrailingDigits(name);
    if m < |name| && m >= 5 && name[m - 4] == ' ' && name[m - 1] == ' '
       && (name[m - 3] == lower[0] || name[m - 3] == upper[0])
       && (name[m - 2] == lower[1] || name[m - 2] == upper[1])
       && IsDigit(name[m - 5])
    then name[..m - 3] + lower + name[m - 1..]
    else name
  }

  /** The shared rewrite of `checkForHyphen`: `"- "` goes in at `q`, where the numeric
      suffix starts, when `[^-] ` matches just before it. */
  function HyphenAt(name: string, q: nat): string
    requires q <= |name|
  {
    if q >= 2 && name[q - 1] == ' ' && name[q - 2] != '-' then name[..q] + "- " + name[q..]
    else name
  }

  /** Where the match of `(\\d+ w \\d+)$` starts for the lower-case word `w`, or -1
      when there is none. */
  function CollectionStart(name: string, word: string): (q: int)
    requires |word| == 2
    ensures q < |name|
    ensures q >= 0 ==> IsDigit(name[q])
  {
    var m := |name| - TrailingDigits(name);
    if m < |name| && m >= 4 && name[m - 4..m] == [' '] + word + [' '] then
      var k := TrailingDigits(name[..m - 4]);
      if k >= 1 then
        assert name[m - 4 - k] == name[..m - 4][m - 4 - k];
        m - 4 - k
      else -1
    else -1
  }

  /** `checkForHyphen(name, "(\\d+ w \\d+)$")` for the lower-case word `w`. */
  function HyphenBeforeCollection(name: string, word: string): string
    requires |word| == 2
  {
    var q := CollectionStart(name, word);
    if q >= 0 then HyphenAt(name, q) else name
  }

  /** `checkForHyphen(name, "(\\d+)$")`. */
  function HyphenBeforeNumber(name: string): string
  {
    var k := TrailingDigits(name);
    if k >= 1 then HyphenAt(name, |name| - k) else name
  }

  /** The `#(\d+)$` rewrite: a `#` right before the trailing digits is dropped. */
  function RemoveNumberSign(name: string): string
  {
    var m := |name| - TrailingDigits(name);
    if m < |name| && m >= 1 && name[m - 1] == '#' then name[..m - 1] + name[m..] else name
  }

  /** The two numbering branches of `normalizeFileName`. */
  function Numbering(name: string): string
  {
    if IsLimited(name) then
      var replaced := ReplaceNumbers(ReplaceNumbers(name, "de", "DE"), "of", "OF");
      HyphenBeforeCollection(HyphenBeforeCollection(replaced, "de"), "of")
    else
      HyphenBeforeNumber(RemoveNumberSign(name))
  }

  // ---------------------------------------------------------------------------------
  // The shape of a rewritten base name
  // ---------------------------------------------------------------------------------

  /** A white-space character at `i` is a plain space between two characters that are
      not white space. */
  predicate SingleSpace(b: string, i: int)
    requires 0 <= i < |b|
  {
    b[i] == ' ' && 0 < i < |b| - 1 && !IsSpace(b[i - 1]) && !IsSpace(b[i + 1])
  }

  /** Every white-space character of `b` is a single space between words. */
  predicate Spaced(b: string) {
    forall i :: 0 <= i < |b| && IsSpace(b[i]) ==> SingleSpace(b, i)
  }

  /** The shape every rewritten base name has: no `.`, nothing `trim` would remove at
      either end, and words separated by single spaces. */
  predicate Canonical(b: string) {
    && '.' !in b
    && (b == [] || (!IsTrimmable(b[0]) && !IsTrimmable(b[|b| - 1])))
    && Spaced(b)
  }

  /** Words joined with single spaces are singly spaced. */
  lemma {:induction false} JoinSpaced(ts: seq<string>)
    requires forall k :: 0 <= k < |ts| ==> IsWord(ts[k])
    ensures Spaced(Join(" ", ts))
  {
    if |ts| >= 2 {
      var t, j' := ts[0], Join(" ", ts[1..]);
      JoinSpaced(ts[1..]);
      JoinLength(" ", ts[1..]);
      var j := Join(" ", ts);
      assert j == t + " " + j';
      forall i | 0 <= i < |j| && IsSpace(j[i])
        ensures SingleSpace(j, i)
      {
        if i > |t| {
          assert j[i] == j'[i - |t| - 1];
          assert SingleSpace(j', i - |t| - 1);
        } else {
          assert i == |t|;
          assert j[i + 1] == ts[1][0];
        }
      }
    }
  }

  /** Every character of a join of words comes from one of the words or is the space
      between two of them. */
  lemma {:induction false} JoinChars(ts: seq<string>, c: char)
    requires c in Join(" ", ts) && c != ' '
    ensures exists k, i :: 0 <= k < |ts| && 0 <= i < |ts[k]| && ts[k][i] == c
  {
    if |ts| == 1 {
      var i :| 0 <= i < |ts[0]| && ts[0][i] == c;
    } else if |ts| >= 2 {
      var j := Join(" ", ts);
      assert j == ts[0] + " " + Join(" ", ts[1..]);
      if c in ts[0] {
        var i :| 0 <= i < |ts[0]| && ts[0][i] == c;
      } else {
        JoinChars(ts[1..], c);
        var k, i :| 0 <= k < |ts[1..]| && 0 <= i < |ts[1..][k]| && ts[1..][k][i] == c;
        assert ts[k + 1][i] == c;
      }
    }
  }

  /** An infix that `trim` leaves of a singly spaced string is singly spaced. */
  lemma TrimSpaced(j: string)
    requires Spaced(j)
    ensures Spaced(Trim(j))
  {
    var r, o := Trim(j), TrimOffset(j);
    forall i | 0 <= i < |r| && IsSpace(r[i])
      ensures SingleSpace(r, i)
    {
      assert r[i] == j[o + i];
      assert SingleSpace(j, o + i);
      assert 0 < i < |r| - 1;
      assert r[i - 1] == j[o + i - 1] && r[i + 1] == j[o + i + 1];
    }
  }

  /** Capitalising words gives words, and brings in no `.`. */
  lemma CapitalizeAllWords(ts: seq<string>)
    requires forall k :: 0 <= k < |ts| ==> IsWord(ts[k]) && '.' !in ts[k]
    ensures var cs := CapitalizeAll(ts);
      forall k :: 0 <= k < |cs| ==> IsWord(cs[k]) && '.' !in cs[k]
  {
    var cs := CapitalizeAll(ts);
    forall k, i | 0 <= k < |cs| && 0 <= i < |cs[k]|
      ensures !IsSpace(cs[k][i]) && cs[k][i] != '.'
    {
      assert ts[k][i] != '.' && !IsSpace(ts[k][i]);
      if i > 0 {
        assert cs[k][i] == cs[k][1..][i - 1];
      }
    }
  }

  /** The case step always yields the canonical shape. */
  lemma CaseWordsCanonical(s: string)
    ensures Canonical(CaseWords(s))
  {
    var d := Replace(LowerStr(s), '.', ' ');
    var ts := Tokens(d);
    TokensAvoid(d, '.');
    CapitalizeAllWords(ts);
    var cs := CapitalizeAll(ts);
    var j := Join(" ", cs);
    JoinSpaced(cs);
    TrimSpaced(j);
    if '.' in j {
      JoinChars(cs, '.');
    }
    TrimAvoids(j, '.');
  }

  /** A character absent from `s` is absent from all its tokens. */
  lemma TokensAvoid(s: string, c: char)
    requires c !in s
    ensures var ts := Tokens(s); forall k :: 0 <= k < |ts| ==> c !in ts[k]
  {
  }

  /** Overwriting two inner characters that are not white space with two others that
      are neither white space nor `.` keeps the shape. */
  lemma OverwriteCanonical(name: string, p: nat, w: string)
    requires Canonical(name)
    requires 0 < p && p + 2 < |name| && |w| == 2
    requires !IsSpace(name[p]) && !IsSpace(name[p + 1])
    requires !IsSpace(w[0]) && !IsSpace(w[1]) && '.' !in w
    ensures Canonical(name[..p] + w + name[p + 2..])
  {
    var r := name[..p] + w + name[p + 2..];
    assert forall i :: 0 <= i < |r| && i != p && i != p + 1 ==> r[i] == name[i];
    assert r[p] == w[0] && r[p + 1] == w[1];
    forall i | 0 <= i < |r| && IsSpace(r[i])
      ensures SingleSpace(r, i)
    {
      assert SingleSpace(name, i);
    }
    forall i | 0 <= i < |r|
      ensures r[i] != '.'
    {
      if i != p && i != p + 1 {
        assert r[i] == name[i];
      }
    }
  }

  /** Rewriting `De`/`Of` keeps the shape. */
  lemma ReplaceNumbersCanonical(name: string, lower: string, upper: string)
    requires Canonical(name)
    requires |lower| == 2 && |upper| == 2
    requires !IsSpace(lower[0]) && !IsSpace(lower[1]) && '.' !in lower
    requires !IsSpace(upper[0]) && !IsSpace(upper[1])
    ensures Canonical(ReplaceNumbers(name, lower, upper))
  {
    var r := ReplaceNumbers(name, lower, upper);
    if r != name {
      var m := |name| - TrailingDigits(name);
      assert r == name[..m - 3] + lower + name[m - 3 + 2..];
      OverwriteCanonical(name, m - 3, lower);
    }
  }

  /** Putting `"- "` in before the number that starts at `q` keeps the shape. */
  lemma HyphenAtCanonical(name: string, q: nat)
    requires Canonical(name)
    requires q < |name| && !IsSpace(name[q])
    ensures Canonical(HyphenAt(name, q))
  {
    var r := HyphenAt(name, q);
    if r != name {
      assert r == name[..q] + "- " + name[q..];
      assert SingleSpace(name, q - 1);
      assert forall i :: 0 <= i < q ==> r[i] == name[i];
      assert forall i :: q + 2 <= i < |r| ==> r[i] == name[i - 2];
      assert r[q] == '-' && r[q + 1] == ' ';
      forall i | 0 <= i < |r| && IsSpace(r[i])
        ensures SingleSpace(r, i)
      {
        if i + 2 < q {
          assert SingleSpace(name, i);
        } else if q + 2 <= i {
          assert SingleSpace(name, i - 2);
        }
      }
      assert forall c :: c in r ==> c in name || c in "- ";
    }
  }

  lemma HyphenBeforeCollectionCanonical(name: string, word: string)
    requires Canonical(name) && |word| == 2
    ensures Canonical(HyphenBeforeCollection(name, word))
  {
    var q := CollectionStart(name, word);
    if q >= 0 {
      HyphenAtCanonical(name, q);
    }
  }

  lemma HyphenBeforeNumberCanonical(name: string)
    requires Canonical(name)
    ensures Canonical(HyphenBeforeNumber(name))
  {
    var k := TrailingDigits(name);
    if k >= 1 {
      HyphenAtCanonical(name, |name| - k);
    }
  }

  lemma RemoveNumberSignCanonical(name: string)
    requires Canonical(name)
    ensures Canonical(RemoveNumberSign(name))
  {
    var r := RemoveNumberSign(name);
    var m := |name| - TrailingDigits(name);
    if r != name {
      assert r == name[..m - 1] + name[m..];
      assert forall i :: 0 <= i < m - 1 ==> r[i] == name[i];
      assert forall i :: m - 1 <= i < |r| ==> r[i] == name[i + 1];
      forall i | 0 <= i < |r| && IsSpace(r[i])
        ensures SingleSpace(r, i)
      {
        assert i < m - 1;
        assert SingleSpace(name, i);
      }
      assert forall c :: c in r ==> c in name;
    }
  }

  /** Numbering keeps the shape. */
  lemma NumberingCanonical(name: string)
    requires Canonical(name)
    ensures Canonical(Numbering(name))
  {
    if IsLimited(name) {
      ReplaceNumbersCanonical(name, "de", "DE");
      var r1 := ReplaceNumbers(name, "de", "DE");
      ReplaceNumbersCanonical(r1, "of", "OF");
      var r2 := ReplaceNumbers(r1, "of", "OF");
      HyphenBeforeCollectionCanonical(r2, "de");
      HyphenBeforeCollectionCanonical(HyphenBeforeCollection(r2, "de"), "of");
    } else {
      RemoveNumberSignCanonical(name);
      HyphenBeforeNumberCanonical(RemoveNumberSign(name));
    }
  }

  // ---------------------------------------------------------------------------------
  // The whole rewrite
  // ---------------------------------------------------------------------------------

  /** Steps 2 to 5 on the base name. */
  function RewriteBase(base: string): string
  {
    var noGroups := RemoveGroups(RemoveGroups(base, '[', ']'), '(', ')');
    Numbering(CaseWords(CollapseSpaces(noGroups)))
  }

  /** `NameConverter.normalizeFileName`. */
  function NormalizeFileName(fileName: string): string
  {
    var (base, extension) := SplitExtension(fileName);
    RewriteBase(base) + extension
  }

  /** Every rewritten base name has the canonical shape. */
  lemma RewriteBaseCanonical(base: string)
    ensures Canonical(RewriteBase(base))
  {
    var noGroups := RemoveGroups(RemoveGroups(base, '[', ']'), '(', ')');
    CaseWordsCanonical(CollapseSpaces(noGroups));
    NumberingCanonical(CaseWords(CollapseSpaces(noGroups)));
  }

  /** The extension of a name is kept by normalisation, and splitting the normalised
      name gives back the rewritten base: the last `.` of the result is the one that
      starts the extension. */
  lemma NormalizeSplitsBack(fileName: string)
    ensures SplitExtension(NormalizeFileName(fileName))
         == (RewriteBase(SplitExtension(fileName).0), SplitExtension(fileName).1)
  {
    var b := RewriteBase(SplitExtension(fileName).0);
    RewriteBaseCanonical(SplitExtension(fileName).0);
    NormalizeParts(fileName);
    if '.' in fileName {
      ExtensionOf(fileName);
      var x := Trim(fileName[LastIndexOf(fileName, '.') + 1..]);
      ConcatAssoc(b, ".", LowerStr(x));
      SplitCanonical(b, x);
    } else {
      assert b + "" == b;
    }
  }

  lemma NormalizeParts(fileName: string)
    ensures NormalizeFileName(fileName)
         == RewriteBase(SplitExtension(fileName).0) + SplitExtension(fileName).1
  {
  }

  /** The extension is the trimmed text after the last `.`, lower-cased; it holds no `.`. */
  lemma ExtensionOf(fileName: string)
    requires '.' in fileName
    ensures var x := Trim(fileName[LastIndexOf(fileName, '.') + 1..]);
      && '.' !in x && (x == [] || (!IsTrimmable(x[0]) && !IsTrimmable(x[|x| - 1])))
      && SplitExtension(fileName).1 == "." + LowerStr(x)
  {
    var k := LastIndexOf(fileName, '.');
    var t := fileName[k + 1..];
    var x := Trim(t);
    assert '.' !in x by {
      AfterLastIndexOf(fileName, '.');
      TrimAvoids(t, '.');
    }
    assert SplitExtension(fileName) == (Trim(fileName[..k]), "." + LowerStr(x));
  }

  /** A canonical base followed by `.` and a trimmed extension without `.` splits into
      exactly those two. */
  lemma SplitCanonical(b: string, x: string)
    requires Canonical(b)
    requires '.' !in x && (x == [] || (!IsTrimmable(x[0]) && !IsTrimmable(x[|x| - 1])))
    ensures SplitExtension(b + "." + LowerStr(x)) == (b, "." + LowerStr(x))
  {
    var e := LowerStr(x);
    var r := b + "." + e;
    LastDotAt(b, e);
    assert r[..|b|] == b && r[|b| + 1..] == e;
    TrimNoOp(b);
    LowerStrTrimmed(x);
    LowerStrTwice(x);
  }

  lemma LastDotAt(b: string, e: string)
    requires '.' !in b && '.' !in e
    ensures LastIndexOf(b + "." + e, '.') == |b|
  {
    var r := b + "." + e;
    assert forall i :: |b| < i < |r| ==> r[i] == e[i - |b| - 1];
    LastIndexOfAt(r, '.', |b|);
  }

  // ---------------------------------------------------------------------------------
  // What numbering does to the common shapes of name
  // ---------------------------------------------------------------------------------

  /** The text before a numeric suffix after `checkForHyphen`: `"- "` goes in when the
      text ends in a space that does not follow a `-`. */
  function Hyphenated(pre: string): (r: string)
    ensures |pre| >= 2 && pre[|pre| - 1] == ' ' && pre[|pre| - 2] != '-' ==> r == pre + "- "
    ensures !(|pre| >= 2 && pre[|pre| - 1] == ' ' && pre[|pre| - 2] != '-') ==> r == pre
  {
    if |pre| >= 2 && pre[|pre| - 1] == ' ' && pre[|pre| - 2] != '-' then pre + "- " else pre
  }

  lemma {:induction false} HyphenAtSplit(pre: string, n: string)
    ensures HyphenAt(pre + n, |pre|) == Hyphenated(pre) + n
  {
    var name := pre + n;
    assert name[..|pre|] == pre && name[|pre|..] == n;
    if |pre| >= 2 {
      assert name[|pre| - 1] == pre[|pre| - 1] && name[|pre| - 2] == pre[|pre| - 2];
    }
  }

  /** A name that does not end in a digit is left as it is. */
  lemma NumberingNoNumber(name: string)
    requires name == [] || !IsDigit(name[|name| - 1])
    ensures Numbering(name) == name
  {
  }

  lemma NoNumberSign(pre: string, n: string)
    requires AllDigits(n) && n != []
    requires pre == [] || (!IsDigit(pre[|pre| - 1]) && pre[|pre| - 1] != '#')
    ensures RemoveNumberSign(pre + n) == pre + n
  {
    TrailingDigitsOf(pre, n);
    assert |pre| == 0 || (pre + n)[|pre| - 1] == pre[|pre| - 1];
  }

  lemma HyphenBeforeNumberSplit(pre: string, n: string)
    requires AllDigits(n) && n != []
    requires pre == [] || !IsDigit(pre[|pre| - 1])
    ensures HyphenBeforeNumber(pre + n) == Hyphenated(pre) + n
  {
    TrailingDigitsOf(pre, n);
    HyphenAtSplit(pre, n);
  }

  /** `Title 06` becomes `Title - 06`; `Title - 06` and `Title 07a` stay as they are. */
  lemma NumberingNumber(pre: string, n: string)
    requires AllDigits(n) && n != []
    requires pre == [] || (!IsDigit(pre[|pre| - 1]) && pre[|pre| - 1] != '#')
    requires !IsLimited(pre + n)
    ensures Numbering(pre + n) == Hyphenated(pre) + n
  {
    NoNumberSign(pre, n);
    HyphenBeforeNumberSplit(pre, n);
  }

  /** `Title #12` becomes `Title - 12`: the `#` goes, then the hyphen rule applies. */
  lemma NumberingNumberSign(pre: string, n: string)
    requires AllDigits(n) && n != []
    requires pre == [] || !IsDigit(pre[|pre| - 1])
    ensures Numbering(pre + "#" + n) == Hyphenated(pre) + n
  {
    RemoveThisNumberSign(pre, n);
    HyphenBeforeNumberSplit(pre, n);
  }

  lemma RemoveThisNumberSign(pre: string, n: string)
    requires AllDigits(n) && n != []
    ensures !IsLimited(pre + "#" + n)
    ensures RemoveNumberSign(pre + "#" + n) == pre + n
  {
    var name, m := pre + "#" + n, |pre| + 1;
    TrailingDigitsOf(pre + "#", n);
    assert |name| - TrailingDigits(name) == m;
    assert name[m - 1] == '#';
    assert m >= 5 ==> name[m - 4..m][3] == '#';
    assert name[..m - 1] == pre && name[m..] == n;
  }

  /** The end of a numbered-collection name: `n w m`, as in `1 de 54`. */
  function CollectionTail(n: string, w: string, m: string): string {
    n + " " + w + " " + m
  }

  /** `Title 1 De 54` becomes `Title - 1 de 54`, and the same with `Of`. */
  lemma NumberingCollection(pre: string, n: string, word: string, m: string)
    requires AllDigits(n) && n != [] && AllDigits(m) && m != []
    requires word == "De" || word == "Of"
    requires pre == [] || !IsDigit(pre[|pre| - 1])
    ensures Numbering(pre + CollectionTail(n, word, m))
         == Hyphenated(pre) + CollectionTail(n, if word == "De" then "de" else "of", m)
  {
    if word == "De" {
      NumberingDe(pre, n, m);
    } else {
      NumberingOf(pre, n, m);
    }
  }

  lemma NumberingDe(pre: string, n: string, m: string)
    requires AllDigits(n) && n != [] && AllDigits(m) && m != []
    requires pre == [] || !IsDigit(pre[|pre| - 1])
    ensures Numbering(pre + CollectionTail(n, "De", m)) == Hyphenated(pre) + CollectionTail(n, "de", m)
  {
    var name := pre + CollectionTail(n, "De", m);
    var r := pre + CollectionTail(n, "de", m);
    CollectionSuffix(pre, n, "De", m);
    ReplacedDe(pre, n, m);
    HyphenedDe(pre, n, m);
    LimitedChain(name, r, r, Hyphenated(pre) + CollectionTail(n, "de", m));
  }

  /** The two `replaceNumbers` steps on `n De m`: the first lower-cases the word, the
      second leaves it. */
  lemma ReplacedDe(pre: string, n: string, m: string)
    requires AllDigits(n) && n != [] && AllDigits(m) && m != []
    ensures ReplaceNumbers(pre + CollectionTail(n, "De", m), "de", "DE") == pre + CollectionTail(n, "de", m)
    ensures ReplaceNumbers(pre + CollectionTail(n, "de", m), "of", "OF") == pre + CollectionTail(n, "de", m)
  {
    ReplaceNumbersSuffix(pre, n, "De", m, "de", "DE");
    ReplaceNumbersSuffix(pre, n, "de", m, "of", "OF");
  }

  /** The two `checkForHyphen` steps on `n de m`: the first puts the hyphen in, the
      second leaves the name. */
  lemma HyphenedDe(pre: string, n: string, m: string)
    requires AllDigits(n) && n != [] && AllDigits(m) && m != []
    requires pre == [] || !IsDigit(pre[|pre| - 1])
    ensures HyphenBeforeCollection(HyphenBeforeCollection(pre + CollectionTail(n, "de", m), "de"), "of")
         == Hyphenated(pre) + CollectionTail(n, "de", m)
  {
    var h := Hyphenated(pre);
    var t := CollectionTail(n, "de", m);
    HyphenBeforeCollectionSuffix(pre, n, "de", m, "de");
    assert HyphenBeforeCollection(pre + t, "de") == h + t;
    HyphenatedEnd(pre);
    HyphenBeforeCollectionSuffix(h, n, "de", m, "of");
    assert HyphenBeforeCollection(h + t, "of") == h + t;
  }

  /** Putting the hyphen in does not make the text end in a digit. */
  lemma HyphenatedEnd(pre: string)
    requires pre == [] || !IsDigit(pre[|pre| - 1])
    ensures var h := Hyphenated(pre); h == [] || !IsDigit(h[|h| - 1])
  {
  }

  lemma NumberingOf(pre: string, n: string, m: string)
    requires AllDigits(n) && n != [] && AllDigits(m) && m != []
    requires pre == [] || !IsDigit(pre[|pre| - 1])
    ensures Numbering(pre + CollectionTail(n, "Of", m)) == Hyphenated(pre) + CollectionTail(n, "of", m)
  {
    var name := pre + CollectionTail(n, "Of", m);
    var r := pre + CollectionTail(n, "of", m);
    CollectionSuffix(pre, n, "Of", m);
    ReplaceNumbersSuffix(pre, n, "Of", m, "de", "DE");
    ReplaceNumbersSuffix(pre, n, "Of", m, "of", "OF");
    HyphenBeforeCollectionSuffix(pre, n, "of", m, "de");
    HyphenBeforeCollectionSuffix(pre, n, "of", m, "of");
    LimitedChain(name, name, r, Hyphenated(pre) + CollectionTail(n, "of", m));
  }

  /** The numbered-collection branch, given the result of each of its four steps. */
  lemma LimitedChain(name: string, r1: string, r2: string, h: string)
    requires IsLimited(name)
    requires ReplaceNumbers(name, "de", "DE") == r1 && ReplaceNumbers(r1, "of", "OF") == r2
    requires HyphenBeforeCollection(HyphenBeforeCollection(r2, "de"), "of") == h
    ensures Numbering(name) == h
  {
  }

  /** Where the trailing number of `pre + CollectionTail(n, w, m)` starts, and what
      stands before it. */
  lemma CollectionTailAt(pre: string, n: string, w: string, m: string)
    requires AllDigits(n) && n != [] && AllDigits(m) && m != [] && |w| == 2
    ensures var name := pre + CollectionTail(n, w, m); var M := |pre| + |n| + 4;
      && |name| == M + |m|
      && |name| - TrailingDigits(name) == M
      && name[..M - 4] == pre + n && name[M - 4..M] == [' '] + w + [' ']
      && name[M - 5] == n[|n| - 1]
      && name[..M - 3] == pre + n + " " && name[M - 1..] == " " + m
  {
    TailDigits(pre, n, w, m);
    TailHead(pre, n, w, m);
    TailWord(pre, n, w, m);
    TailAround(pre, n, w, m);
  }

  lemma TailDigits(pre: string, n: string, w: string, m: string)
    requires |w| == 2 && AllDigits(m)
    ensures TrailingDigits(pre + CollectionTail(n, w, m)) == |m|
  {
    assert pre + CollectionTail(n, w, m) == (pre + n + " " + w + " ") + m;
    TrailingDigitsOf(pre + n + " " + w + " ", m);
  }

  lemma TailHead(pre: string, n: string, w: string, m: string)
    requires |w| == 2 && n != []
    ensures var name := pre + CollectionTail(n, w, m);
      name[..|pre| + |n|] == pre + n && name[|pre| + |n| - 1] == n[|n| - 1]
  {
    var name := pre + CollectionTail(n, w, m);
    assert name == (pre + n) + ([' '] + w + [' '] + m);
  }

  lemma TailWord(pre: string, n: string, w: string, m: string)
    requires |w| == 2
    ensures var name := pre + CollectionTail(n, w, m); var M := |pre| + |n| + 4;
      name[M - 4..M] == [' '] + w + [' ']
  {
    var name := pre + CollectionTail(n, w, m);
    assert name == (pre + n) + ([' '] + w + [' ']) + m;
  }

  lemma TailAround(pre: string, n: string, w: string, m: string)
    requires |w| == 2
    ensures var name := pre + CollectionTail(n, w, m); var M := |pre| + |n| + 4;
      name[..M - 3] == pre + n + " " && name[M - 1..] == " " + m
  {
    var name := pre + CollectionTail(n, w, m);
    assert name == (pre + n + " ") + w + (" " + m);
  }

  /** The numbered-collection pattern matches `pre + CollectionTail(n, w, m)`. */
  lemma CollectionSuffix(pre: string, n: string, word: string, m: string)
    requires AllDigits(n) && n != [] && AllDigits(m) && m != []
    requires word == "De" || word == "Of"
    ensures IsLimited(pre + CollectionTail(n, word, m))
  {
    CollectionTailAt(pre, n, word, m);
  }

  lemma ReplaceNumbersAt(name: string, lower: string, upper: string)
    requires |lower| == 2 && |upper| == 2
    requires var M := |name| - TrailingDigits(name);
      M < |name| && M >= 5 && name[M - 4] == ' ' && name[M - 1] == ' ' && IsDigit(name[M - 5])
    ensures var M := |name| - TrailingDigits(name);
      ReplaceNumbers(name, lower, upper)
      == if (name[M - 3] == lower[0] || name[M - 3] == upper[0])
            && (name[M - 2] == lower[1] || name[M - 2] == upper[1])
         then name[..M - 3] + lower + name[M - 1..]
         else name
  {
  }

  /** `replaceNumbers` on a name ending in `n w m`: the word is rewritten exactly when it
      spells `lower` in either case per letter. */
  lemma ReplaceNumbersSuffix(pre: string, n: string, w: string, m: string, lower: string, upper: string)
    requires AllDigits(n) && n != [] && AllDigits(m) && m != []
    requires |w| == 2 && |lower| == 2 && |upper| == 2
    ensures var name := pre + CollectionTail(n, w, m);
      ReplaceNumbers(name, lower, upper)
      == if (w[0] == lower[0] || w[0] == upper[0]) && (w[1] == lower[1] || w[1] == upper[1])
         then pre + CollectionTail(n, lower, m)
         else name
  {
    var name := pre + CollectionTail(n, w, m);
    var M := |pre| + |n| + 4;
    CollectionTailAt(pre, n, w, m);
    assert name[M - 4] == ' ' && name[M - 1] == ' ' by {
      assert name[M - 4..M][0] == name[M - 4] && name[M - 4..M][3] == name[M - 1];
    }
    assert name[M - 3] == w[0] && name[M - 2] == w[1] by {
      assert name[M - 4..M][1] == name[M - 3] && name[M - 4..M][2] == name[M - 2];
    }
    ReplaceNumbersAt(name, lower, upper);
    TailRegroup(pre, n, lower, m);
  }

  lemma TailRegroup(pre: string, n: string, w: string, m: string)
    ensures (pre + n + " ") + w + (" " + m) == pre + CollectionTail(n, w, m)
  {
  }

  lemma CollectionStartNoMatch(name: string, word: string)
    requires |word| == 2
    requires var M := |name| - TrailingDigits(name); M >= 4 && name[M - 4..M] != [' '] + word + [' ']
    ensures CollectionStart(name, word) == -1
  {
  }

  lemma CollectionStartMatch(name: string, word: string, q: nat)
    requires |word| == 2
    requires var M := |name| - TrailingDigits(name);
      M < |name| && M >= 4 && name[M - 4..M] == [' '] + word + [' ']
      && q < M - 4 && TrailingDigits(name[..M - 4]) == M - 4 - q
    ensures CollectionStart(name, word) == q
  {
  }

  /** `checkForHyphen` for the word `word` on a name ending in `n w m`, where `pre` does
      not end in a digit. */
  lemma HyphenBeforeCollectionSuffix(pre: string, n: string, w: string, m: string, word: string)
    requires AllDigits(n) && n != [] && AllDigits(m) && m != []
    requires |w| == 2 && |word| == 2
    requires pre == [] || !IsDigit(pre[|pre| - 1])
    ensures var name := pre + CollectionTail(n, w, m);
      HyphenBeforeCollection(name, word)
      == if w == word then Hyphenated(pre) + CollectionTail(n, w, m) else name
  {
    var name := pre + CollectionTail(n, w, m);
    var M := |pre| + |n| + 4;
    CollectionTailAt(pre, n, w, m);
    if w == word {
      TrailingDigitsOf(pre, n);
      CollectionStartMatch(name, word, |pre|);
      HyphenAtSplit(pre, CollectionTail(n, w, m));
    } else {
      assert name[M - 4..M] != [' '] + word + [' '] by {
        assert name[M - 4..M][1..3] == w;
        assert ([' '] + word + [' '])[1..3] == word;
      }
      CollectionStartNoMatch(name, word);
    }
  }

  // ---------------------------------------------------------------------------------
  // Normalising twice
  // ---------------------------------------------------------------------------------

  /** Lower-casing a canonical string keeps its white space where it was and brings in
      no `.`. */
  lemma LowerKeepsShape(s: string)
    requires Canonical(s)
    ensures var l := LowerStr(s);
      && Spaced(l) && (l == [] || (!IsSpace(l[0]) && !IsSpace(l[|l| - 1])))
      && Replace(l, '.', ' ') == l
  {
    var l := LowerStr(s);
    assert forall i :: 0 <= i < |s| ==> (IsSpace(l[i]) <==> IsSpace(s[i])) && (l[i] == '.' <==> s[i] == '.');
    forall i | 0 <= i < |l| && IsSpace(l[i])
      ensures SingleSpace(l, i)
    {
      assert SingleSpace(s, i);
    }
  }

  /** Title-casing the lower-cased form of a title-cased string gives it back. */
  lemma TitleOfLower(s: string)
    requires TitleCase(s)
    ensures TitleStr(LowerStr(s)) == s
  {
    var l := LowerStr(s);
    forall i | 0 <= i < |s|
      ensures TitleStr(l)[i] == s[i]
    {
      TitleOfLowerAt(s, l, i);
    }
  }

  /** One position of `TitleOfLower`. */
  lemma TitleOfLowerAt(s: string, l: string, i: nat)
    requires |l| == |s| && i < |s|
    requires l[i] == ToLower(s[i]) && (i > 0 ==> l[i - 1] == ToLower(s[i - 1]))
    requires if WordStart(s, i) then !IsLowerLetter(s[i]) else !IsUpperLetter(s[i])
    ensures TitleAt(l, i) == s[i]
  {
    if i > 0 {
      LowerKeepsSpace(s[i - 1]);
    }
    assert WordStart(l, i) == WordStart(s, i);
  }

  lemma LowerKeepsSpace(c: char)
    ensures IsSpace(ToLower(c)) == IsSpace(c)
  {
  }

  /** The case step leaves a canonical, title-cased string as it is. */
  lemma CaseWordsFixpoint(s: string)
    requires Canonical(s) && TitleCase(s)
    ensures CaseWords(s) == s
  {
    var l := LowerStr(s);
    LowerKeepsShape(s);
    JoinTokens(l);
    JoinCapitalize(Tokens(l));
    TitleOfLower(s);
    TrimNoOp(s);
  }

  /** Title-casing a string without upper-case letters gives title case. */
  lemma TitleStrTitle(j: string)
    requires forall i :: 0 <= i < |j| ==> !IsUpperLetter(j[i])
    ensures TitleCase(TitleStr(j))
  {
    var t := TitleStr(j);
    forall i | 0 <= i < |t|
      ensures if WordStart(t, i) then !IsLowerLetter(t[i]) else !IsUpperLetter(t[i])
    {
      assert i > 0 ==> t[i - 1] == TitleAt(j, i - 1);
      assert WordStart(t, i) == WordStart(j, i);
    }
  }

  /** A string without upper-case letters and whose only characters up to U+0020 are
      white space keeps both properties when split into tokens and joined again. */
  lemma JoinTokenChars(d: string)
    requires forall i :: 0 <= i < |d| ==> !IsUpperLetter(d[i]) && (IsTrimmable(d[i]) ==> IsSpace(d[i]))
    ensures forall i :: 0 <= i < |Join(" ", Tokens(d))| ==>
      !IsUpperLetter(Join(" ", Tokens(d))[i])
      && (IsTrimmable(Join(" ", Tokens(d))[i]) ==> IsSpace(Join(" ", Tokens(d))[i]))
  {
    var ts := Tokens(d);
    var j := Join(" ", ts);
    forall i | 0 <= i < |j| && j[i] != ' '
      ensures !IsUpperLetter(j[i]) && (IsTrimmable(j[i]) ==> IsSpace(j[i]))
    {
      JoinChars(ts, j[i]);
      var k, x :| 0 <= k < |ts| && 0 <= x < |ts[k]| && ts[k][x] == j[i];
      assert ts[k][x] in d;
      var y :| 0 <= y < |d| && d[y] == j[i];
    }
  }

  /** Title-casing a join of words whose only characters up to U+0020 are white space
      leaves nothing for `trim` to remove. */
  lemma TitleStrTrimmed(j: string)
    requires Spaced(j)
    requires forall i :: 0 <= i < |j| ==> IsTrimmable(j[i]) ==> IsSpace(j[i])
    ensures Trim(TitleStr(j)) == TitleStr(j)
  {
    var t := TitleStr(j);
    if t != [] {
      assert SingleSpace(j, 0) || !IsSpace(j[0]);
      assert SingleSpace(j, |j| - 1) || !IsSpace(j[|j| - 1]);
      assert t[0] == TitleAt(j, 0) && t[|t| - 1] == TitleAt(j, |j| - 1);
    }
    TrimNoOp(t);
  }

  /** After lower-casing and turning dots into spaces no upper-case letter is left, and
      no control character is brought in. */
  lemma LowerDotsChars(s: string)
    requires forall i :: 0 <= i < |s| && IsTrimmable(s[i]) ==> IsSpace(s[i])
    ensures var d := Replace(LowerStr(s), '.', ' ');
      forall i :: 0 <= i < |d| ==> !IsUpperLetter(d[i]) && (IsTrimmable(d[i]) ==> IsSpace(d[i]))
  {
  }

  /** The case step capitalises every word and lower-cases the rest, provided the name
      holds no control character that `trim` could bring to the front of a word. */
  lemma CaseWordsTitle(s: string)
    requires forall i :: 0 <= i < |s| && IsTrimmable(s[i]) ==> IsSpace(s[i])
    ensures TitleCase(CaseWords(s))
  {
    var d := Replace(LowerStr(s), '.', ' ');
    LowerDotsChars(s);
    var ts := Tokens(d);
    var jj := Join(" ", ts);
    JoinTokenChars(d);
    JoinCapitalize(ts);
    TitleStrTitle(jj);
    JoinSpaced(ts);
    TitleStrTrimmed(jj);
  }

  /** On a canonical, title-cased base without brackets only the numbering step acts. */
  lemma RewriteBaseTitled(b: string)
    requires Canonical(b) && TitleCase(b) && '[' !in b && '(' !in b
    ensures RewriteBase(b) == Numbering(b)
  {
    NoOpenNoGroup(b, '[', ']');
    NoOpenNoGroup(b, '(', ')');
    SpacedNoDouble(b);
    CollapseSpacesFixpoint(b);
    CaseWordsFixpoint(b);
    RewriteChain(b, b, b, b, b);
  }

  /** Without an `open` there is no group to remove. */
  lemma NoOpenNoGroup(s: string, open: char, close: char)
    requires open != close && open !in s
    ensures RemoveGroups(s, open, close) == s
  {
    RemoveGroupsFixpoint(s, open, close);
  }

  lemma SpacedNoDouble(s: string)
    requires Spaced(s)
    ensures NoDoubleSpace(s)
  {
    forall i | 0 <= i < |s| - 1 && IsSpace(s[i])
      ensures !IsSpace(s[i + 1])
    {
      assert SingleSpace(s, i);
    }
  }

  /** `RewriteBase`, given the result of each of its steps. */
  lemma RewriteChain(b: string, g1: string, g2: string, c: string, w: string)
    requires RemoveGroups(b, '[', ']') == g1 && RemoveGroups(g1, '(', ')') == g2
    requires CollapseSpaces(g2) == c && CaseWords(c) == w
    ensures RewriteBase(b) == Numbering(w)
  {
  }

  /** A name without `.` that is already canonical, title-cased and free of brackets is
      only renumbered. */
  lemma NormalizeTitled(fileName: string)
    requires '.' !in fileName
    requires Canonical(fileName) && TitleCase(fileName) && '[' !in fileName && '(' !in fileName
    ensures NormalizeFileName(fileName) == Numbering(fileName)
  {
    RewriteBaseTitled(fileName);
    assert RewriteBase(fileName) + "" == RewriteBase(fileName);
  }

  /** A doubled `#` before a number: the first numbering drops one `#` and nothing
      else, the second drops the other and puts the hyphen in. */
  lemma NumberSignTwice(pre: string, n: string)
    requires AllDigits(n) && n != []
    requires pre == [] || !IsDigit(pre[|pre| - 1])
    ensures Numbering(pre + "#" + "#" + n) == pre + "#" + n
    ensures Numbering(pre + "#" + n) == Hyphenated(pre) + n
  {
    var q := pre + "#";
    assert Hyphenated(q) == q;
    NumberingNumberSign(q, n);
    NumberingNumberSign(pre, n);
  }

  /** Dropping one of two `#` keeps a canonical, title-cased name so. */
  lemma DropNumberSign(pre: string, n: string)
    requires AllDigits(n)
    requires var f := pre + "#" + "#" + n;
      '.' !in f && Canonical(f) && TitleCase(f) && '[' !in f && '(' !in f
    ensures var g := pre + "#" + n;
      '.' !in g && Canonical(g) && TitleCase(g) && '[' !in g && '(' !in g
  {
    DropKeepsCharacters(pre, n);
    DropKeepsSpacing(pre, n);
    DropKeepsTitleCase(pre, n);
  }

  /** Where the characters of `pre # n` sit in `pre ## n`. */
  lemma DropPositions(pre: string, n: string)
    requires AllDigits(n)
    ensures var f, g := pre + "#" + "#" + n, pre + "#" + n;
      && |f| == |g| + 1
      && (forall i :: 0 <= i <= |pre| ==> g[i] == f[i])
      && (forall i :: |pre| < i < |g| ==> g[i] == f[i + 1] && IsDigit(g[i]))
  {
  }

  lemma DropKeepsCharacters(pre: string, n: string)
    requires AllDigits(n)
    ensures forall c :: c in pre + "#" + n ==> c in pre + "#" + "#" + n
    ensures var f, g := pre + "#" + "#" + n, pre + "#" + n;
      !IsTrimmable(f[0]) && !IsTrimmable(f[|f| - 1]) ==> !IsTrimmable(g[0]) && !IsTrimmable(g[|g| - 1])
  {
    DropPositions(pre, n);
  }

  lemma DropKeepsSpacing(pre: string, n: string)
    requires AllDigits(n) && Spaced(pre + "#" + "#" + n)
    ensures Spaced(pre + "#" + n)
  {
    var f, g := pre + "#" + "#" + n, pre + "#" + n;
    DropPositions(pre, n);
    forall i | 0 <= i < |g| && IsSpace(g[i])
      ensures SingleSpace(g, i)
    {
      assert SingleSpace(f, i);
    }
  }

  lemma DropKeepsTitleCase(pre: string, n: string)
    requires AllDigits(n) && TitleCase(pre + "#" + "#" + n)
    ensures TitleCase(pre + "#" + n)
  {
    var f, g := pre + "#" + "#" + n, pre + "#" + n;
    DropPositions(pre, n);
    forall i | 0 <= i < |g|
      ensures if WordStart(g, i) then !IsLowerLetter(g[i]) else !IsUpperLetter(g[i])
    {
      if i <= |pre| {
        assert WordStart(g, i) == WordStart(f, i);
      }
    }
  }

  /** Normalisation is not idempotent: in a canonical, title-cased name such as
      `X ##12`, the first pass drops one `#` and the second the other, putting a hyphen
      in (`X #12`, then `X - 12`). */
  lemma NormalizeNotIdempotent(pre: string, n: string)
    requires AllDigits(n) && n != []
    requires |pre| >= 2 && pre[|pre| - 1] == ' ' && pre[|pre| - 2] != '-'
    requires var f := pre + "#" + "#" + n;
      '.' !in f && Canonical(f) && TitleCase(f) && '[' !in f && '(' !in f
    ensures NormalizeFileName(pre + "#" + "#" + n) == pre + "#" + n
    ensures NormalizeFileName(pre + "#" + n) == pre + "- " + n
  {
    NumberSignTwice(pre, n);
    NormalizeTitled(pre + "#" + "#" + n);
    DropNumberSign(pre, n);
    NormalizeTitled(pre + "#" + n);
  }

  // ---------------------------------------------------------------------------------
  // Annotations at the end of a name
  // ---------------------------------------------------------------------------------

  /** A space after a name that ends in a word is kept as one space by collapsing. */
  lemma {:induction false} CollapseTrailingSpace(f: string)
    requires f != [] && !IsSpace(f[|f| - 1])
    ensures CollapseSpaces(f + " ") == CollapseSpaces(f) + " "
    decreases |f|
  {
    if IsSpace(f[0]) {
      var n := SpaceRun(f);
      var sp, r := f[..n], f[n..];
      assert f == sp + r;
      CollapseTrailingSpace(r);
      TrailingSpaceAfterSpaces(sp, r);
    } else {
      var n := WordRun(f);
      var w, r := f[..n], f[n..];
      assert f == w + r;
      if r != [] {
        CollapseTrailingSpace(r);
      }
      TrailingSpaceAfterWord(w, r);
    }
  }

  /** The step of `CollapseTrailingSpace` past a leading run of white space. */
  lemma TrailingSpaceAfterSpaces(sp: string, r: string)
    requires sp != [] && (forall i :: 0 <= i < |sp| ==> IsSpace(sp[i]))
    requires r != [] && !IsSpace(r[0])
    requires CollapseSpaces(r + " ") == CollapseSpaces(r) + " "
    ensures CollapseSpaces(sp + r + " ") == CollapseSpaces(sp + r) + " "
  {
    var h: string := if |sp| >= 2 then " " else sp;
    ConcatAssoc(sp, r, " ");
    CollapseSpacePrefix(sp, r);
    CollapseSpacePrefix(sp, r + " ");
    ConcatAssoc(h, CollapseSpaces(r), " ");
  }

  /** The step of `CollapseTrailingSpace` past a leading word. */
  lemma TrailingSpaceAfterWord(w: string, r: string)
    requires IsWord(w) && (r == [] || IsSpace(r[0]))
    requires r != [] ==> CollapseSpaces(r + " ") == CollapseSpaces(r) + " "
    ensures CollapseSpaces(w + r + " ") == CollapseSpaces(w + r) + " "
  {
    ConcatAssoc(w, r, " ");
    if r == [] {
      assert CollapseSpaces(" ") == " " by {
        assert SpaceRun(" ") == 1;
      }
    }
    CollapseWordPrefix(w, r);
    CollapseWordPrefix(w, r + " ");
    ConcatAssoc(w, CollapseSpaces(r), " ");
  }

  /** A string that starts with a run of white space collapses that run on its own. */
  lemma CollapseSpacePrefix(sp: string, r: string)
    requires sp != [] && (forall i :: 0 <= i < |sp| ==> IsSpace(sp[i]))
    requires r == [] || !IsSpace(r[0])
    ensures CollapseSpaces(sp + r) == (if |sp| >= 2 then " " else sp) + CollapseSpaces(r)
  {
    var s := sp + r;
    assert forall i :: 0 <= i < |sp| ==> s[i] == sp[i];
    if r == [] {
      assert s == sp;
    } else {
      assert s[|sp|] == r[0];
      SpacesFromUnique(s, |sp|);
    }
    assert s[|sp|..] == r;
    assert |sp| == 1 ==> [s[0]] == sp;
  }

  /** A string that starts with a word keeps the word and collapses the rest. */
  lemma CollapseWordPrefix(w: string, r: string)
    requires IsWord(w) && (r == [] || IsSpace(r[0]))
    ensures CollapseSpaces(w + r) == w + CollapseSpaces(r)
  {
    WordRunOf(w, r);
    assert (w + r)[..|w|] == w && (w + r)[|w|..] == r;
  }

  lemma SpacesFromUnique(s: string, n: nat)
    requires n < |s| && (forall i :: 0 <= i < n ==> IsSpace(s[i])) && !IsSpace(s[n])
    ensures SpaceRun(s) == n
  {
  }

  lemma WordCharsFromUnique(s: string, n: nat)
    requires n < |s| && (forall i :: 0 <= i < n ==> !IsSpace(s[i])) && IsSpace(s[n])
    ensures WordRun(s) == n
  {
  }

  /** A trailing space adds no token. */
  lemma {:induction false} TokensTrailingSpace(x: string)
    ensures Tokens(x + " ") == Tokens(x)
    decreases |x|
  {
    var s := x + " ";
    if x == [] {
      assert Tokens(s) == Tokens(s[1..]);
    } else if IsSpace(x[0]) {
      assert s[1..] == x[1..] + " ";
      TokensTrailingSpace(x[1..]);
    } else {
      var n := WordRun(x);
      assert forall i :: 0 <= i < |x| ==> s[i] == x[i];
      if n < |x| {
        WordCharsFromUnique(s, n);
      } else {
        WordCharsFromUnique(s, |x|);
      }
      assert s[..n] == x[..n] && s[n..] == x[n..] + " ";
      TokensTrailingSpace(x[n..]);
    }
  }

  /** A trailing space does not change the case step. */
  lemma CaseWordsTrailingSpace(c: string)
    ensures CaseWords(c + " ") == CaseWords(c)
  {
    var d := Replace(LowerStr(c), '.', ' ');
    LowerStrConcat(c, " ");
    assert LowerStr(" ") == " ";
    ReplaceConcat(LowerStr(c), " ", '.', ' ');
    assert Replace(" ", '.', ' ') == " ";
    TokensTrailingSpace(d);
  }

  /** An annotation in brackets after a space at the end of a name, as in
      `dir 1 [by some guy]`, does not change the normalised name. */
  lemma AnnotationIgnored(f: string, g: string)
    requires f != [] && !IsSpace(f[|f| - 1])
    requires '.' !in f && '[' !in f && '(' !in f
    requires '.' !in g && ']' !in g
    ensures NormalizeFileName(f + " [" + g + "]") == NormalizeFileName(f)
  {
    RewriteBaseAnnotated(f, g);
    AnnotatedNoDot(f, g);
    NoDotSplit(f + " [" + g + "]");
    NoDotSplit(f);
  }

  lemma AnnotatedNoDot(f: string, g: string)
    requires '.' !in f && '.' !in g
    ensures '.' !in f + " [" + g + "]"
  {
  }

  lemma RewriteBaseAnnotated(f: string, g: string)
    requires f != [] && !IsSpace(f[|f| - 1])
    requires '[' !in f && '(' !in f && ']' !in g
    ensures RewriteBase(f + " [" + g + "]") == RewriteBase(f)
  {
    var a := f + " [" + g + "]";
    AnnotationRemoved(f, g);
    NoOpenNoGroup(f, '[', ']');
    NoOpenNoGroup(f, '(', ')');
    CollapseTrailingSpace(f);
    CaseWordsTrailingSpace(CollapseSpaces(f));
    var w := CaseWords(CollapseSpaces(f));
    RewriteChain(a, RemoveGroups(a, '[', ']'), f + " ", CollapseSpaces(f) + " ", w);
    RewriteChain(f, f, f, CollapseSpaces(f), w);
  }

  /** Removing the groups of `f [g]` leaves `f` and the space before the group. */
  lemma AnnotationRemoved(f: string, g: string)
    requires '[' !in f && '(' !in f && ']' !in g
    ensures RemoveGroups(RemoveGroups(f + " [" + g + "]", '[', ']'), '(', ')') == f + " "
  {
    var pre := f + " ";
    AnnotationSplit(f, g);
    CutLastGroup(pre, g);
    NoOpenNoGroup(pre, '(', ')');
  }

  lemma AnnotationSplit(f: string, g: string)
    ensures f + " [" + g + "]" == (f + " ") + "[" + g + "]"
  {
  }

  /** A group at the very end is cut off. */
  lemma CutLastGroup(pre: string, g: string)
    requires '[' !in pre && ']' !in g
    ensures RemoveGroups(pre + "[" + g + "]", '[', ']') == pre
  {
    RemoveGroupsCutsGroup(pre, g, "", '[', ']');
    assert pre + ['['] + g + [']'] + "" == pre + "[" + g + "]";
  }

  /** A name without `.` is all base. */
  lemma NoDotSplit(f: string)
    requires '.' !in f
    ensures NormalizeFileName(f) == RewriteBase(f)
  {
    assert RewriteBase(f) + "" == RewriteBase(f);
  }
}
