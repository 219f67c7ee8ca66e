/** `get_words`: `re.findall` of the pattern `[a-zA-Z0-9]+(?:[-'][a-zA-Z0-9]+)*`.
    A word is a run of ASCII letters and digits, optionally continued by
    further runs each introduced by a single hyphen or apostrophe. The scan
    is written over positions of one string, which keeps the proofs free of
    slices. */
module Words {
  import opened Strings

  predicate IsConnector(c: char) {
    c == '-' || c == '\''
  }

  /** `s[i..j]` is a string the pattern matches in full: it starts and ends
      with a letter or digit, holds nothing but letters, digits and
      connectors, and every connector is followed by a letter or digit. */
  predicate WordSpan(s: string, i: nat, j: nat) {
    && i < j <= |s|
    && IsAsciiAlnum(s[i])
    && IsAsciiAlnum(s[j - 1])
    && (forall k :: i <= k < j ==> IsAsciiAlnum(s[k]) || IsConnector(s[k]))
    && (forall k :: i <= k < j - 1 && IsConnector(s[k]) ==> IsAsciiAlnum(s[k + 1]))
  }

  predicate IsWord(w: string) {
    WordSpan(w, 0, |w|)
  }

  /** A connector at `i` that the pattern would take: one followed by a
      letter or digit. */
  predicate Continues(s: string, i: nat) {
    i + 1 < |s| && IsConnector(s[i]) && IsAsciiAlnum(s[i + 1])
  }

  /** Where the greedy `[a-zA-Z0-9]*` starting at `i` stops. */
  function AlnumEnd(s: string, i: nat): (j: nat)
    requires i <= |s|
    ensures i <= j <= |s|
    ensures forall k :: i <= k < j ==> IsAsciiAlnum(s[k])
    ensures j == |s| || !IsAsciiAlnum(s[j])
    decreases |s| - i
  {
    if i < |s| && IsAsciiAlnum(s[i]) then AlnumEnd(s, i + 1) else i
  }

  /** Where the greedy group `(?:[-'][a-zA-Z0-9]+)*` starting at `i` stops. */
  function ChainEnd(s: string, i: nat): (j: nat)
    requires i <= |s|
    ensures i <= j <= |s|
    ensures j > i ==> Continues(s, i)
    decreases |s| - i
  {
    if Continues(s, i) then ChainEnd(s, AlnumEnd(s, i + 1)) else i
  }

  /** `s[i..j]` is what the group can take: empty, or a connector, then
      letters, digits and connectors, every connector followed by a letter
      or digit, and a letter or digit last. */
  predicate ChainSpan(s: string, i: nat, j: nat) {
    && i <= j <= |s|
    && (j > i ==> IsConnector(s[i]) && IsAsciiAlnum(s[j - 1]))
    && (forall k :: i <= k < j ==> IsAsciiAlnum(s[k]) || IsConnector(s[k]))
    && (forall k :: i <= k < j - 1 && IsConnector(s[k]) ==> IsAsciiAlnum(s[k + 1]))
  }

  /** Nothing the pattern could take follows position `j`. */
  predicate Maximal(s: string, j: nat) {
    j <= |s| && (j == |s| || !IsAsciiAlnum(s[j])) && !Continues(s, j)
  }

  lemma {:induction false} ChainEndSpan(s: string, i: nat)
    requires i <= |s|
    requires i == |s| || !IsAsciiAlnum(s[i])
    ensures ChainSpan(s, i, ChainEnd(s, i))
    ensures Maximal(s, ChainEnd(s, i))
    decreases |s| - i
  {
    if Continues(s, i) {
      var a := AlnumEnd(s, i + 1);
      ChainEndSpan(s, a);
    }
  }

  /** The group takes exactly the chain that cannot be extended. */
  lemma {:induction false} ChainEndUnique(s: string, i: nat, j: nat)
    requires ChainSpan(s, i, j) && Maximal(s, j)
    requires i == |s| || !IsAsciiAlnum(s[i])
    ensures ChainEnd(s, i) == j
    decreases j - i
  {
    if i < j {
      assert i + 1 < j;
      assert Continues(s, i);
      var a := AlnumEnd(s, i + 1);
      assert a <= j;
      ChainEndUnique(s, a, j);
    }
  }

  /** Where the pattern's match starting at `i` ends; `i` itself when the
      pattern does not match there. */
  function WordEnd(s: string, i: nat): (j: nat)
    requires i <= |s|
    ensures i <= j <= |s|
    ensures j == i <==> i == |s| || !IsAsciiAlnum(s[i])
  {
    if i < |s| && IsAsciiAlnum(s[i]) then ChainEnd(s, AlnumEnd(s, i)) else i
  }

  /** A match is a word and cannot be extended. */
  lemma WordEndSpan(s: string, i: nat)
    requires i <= |s|
    ensures WordEnd(s, i) > i ==> WordSpan(s, i, WordEnd(s, i)) && Maximal(s, WordEnd(s, i))
  {
    if i < |s| && IsAsciiAlnum(s[i]) {
      ChainEndSpan(s, AlnumEnd(s, i));
    }
  }

  /** The match at `i` is the one word span from `i` that cannot be
      extended. */
  lemma WordEndUnique(s: string, i: nat, j: nat)
    requires WordSpan(s, i, j) && Maximal(s, j)
    ensures WordEnd(s, i) == j
  {
    var a := AlnumEnd(s, i);
    assert a <= j;
    ChainEndUnique(s, a, j);
  }

  /** `re.findall` from position `i`: the match at the leftmost position
      where there is one, then the search resumes after it. */
  function WordsFrom(s: string, i: nat): seq<string>
    requires i <= |s|
    decreases |s| - i
  {
    if i == |s| then []
    else
      var j := WordEnd(s, i);
      if j == i then WordsFrom(s, i + 1) else [s[i..j]] + WordsFrom(s, j)
  }

  predicate AllWords(ws: seq<string>) {
    |ws| == 0 || (IsWord(ws[0]) && AllWords(ws[1..]))
  }

  lemma {:induction false} AllWordsIndex(ws: seq<string>)
    ensures AllWords(ws) <==> forall k :: 0 <= k < |ws| ==> IsWord(ws[k])
  {
    if |ws| > 0 {
      AllWordsIndex(ws[1..]);
      assert forall k :: 1 <= k < |ws| ==> ws[k] == ws[1..][k - 1];
    }
  }

  /** `get_words`. */
  function GetWords(s: string): seq<string> {
    WordsFrom(s, 0)
  }

  lemma SpanIsWord(s: string, i: nat, j: nat)
    requires WordSpan(s, i, j)
    ensures IsWord(s[i..j])
  {
    assert forall k :: 0 <= k < j - i ==> s[i..j][k] == s[i + k];
  }

  /** Everything `get_words` returns is a word. */
  lemma {:induction false} WordsFromAreWords(s: string, i: nat)
    requires i <= |s|
    ensures forall k :: 0 <= k < |WordsFrom(s, i)| ==> IsWord(WordsFrom(s, i)[k])
    decreases |s| - i
  {
    if i < |s| {
      var j := WordEnd(s, i);
      if j == i {
        WordsFromAreWords(s, i + 1);
      } else {
        WordEndSpan(s, i);
        SpanIsWord(s, i, j);
        WordsFromAreWords(s, j);
      }
    }
  }

  lemma GetWordsAreWords(s: string)
    ensures forall k :: 0 <= k < |GetWords(s)| ==> IsWord(GetWords(s)[k])
  {
    WordsFromAreWords(s, 0);
  }

  /** A word spelled out at `i` is found there, when nothing it could be
      extended with follows it. */
  lemma WordAt(s: string, i: nat, w: string)
    requires IsWord(w) && i + |w| <= |s| && s[i..i + |w|] == w
    requires Maximal(s, i + |w|)
    ensures WordEnd(s, i) == i + |w|
  {
    assert forall k :: i <= k < i + |w| ==> s[k] == w[k - i];
    WordEndUnique(s, i, i + |w|);
  }

  /** Words joined by single spaces, spelled out from `i` to the end, are
      found again in order. */
  lemma {:induction false} WordsFromJoin(s: string, i: nat, ws: seq<string>)
    requires i <= |s| && s[i..] == Join(ws, " ")
    requires AllWords(ws)
    ensures WordsFrom(s, i) == ws
    decreases |ws|
  {
    if |ws| == 0 {
      assert |s[i..]| == 0;
    } else if |ws| == 1 {
      LastWord(s, i, ws[0]);
    } else {
      var j := JoinStep(s, i, ws);
      WordsFromJoin(s, j, ws[1..]);
      assert ws == ws[..1] + ws[1..];
    }
  }

  /** The first of several joined words is found, and the scan resumes at
      the join of the others. */
  lemma JoinStep(s: string, i: nat, ws: seq<string>) returns (j: nat)
    requires |ws| > 1 && AllWords(ws)
    requires i <= |s| && s[i..] == Join(ws, " ")
    ensures j <= |s| && s[j..] == Join(ws[1..], " ") && AllWords(ws[1..])
    ensures WordsFrom(s, i) == ws[..1] + WordsFrom(s, j)
  {
    var w := ws[0];
    var tail := Join(ws[1..], " ");
    assert Join(ws, " ") == w + " " + tail;
    SpellOut(s, i, w, tail);
    j := WordThenSpace(s, i, w);
    assert ws[..1] == [w];
  }

  lemma LastWord(s: string, i: nat, w: string)
    requires i <= |s| && s[i..] == w && IsWord(w)
    ensures WordsFrom(s, i) == [w]
  {
    var e := i + |w|;
    assert e == |s|;
    assert s[i..e] == s[i..];
    assert Maximal(s, e);
    WordAt(s, i, w);
    assert WordsFrom(s, e) == [];
  }

  lemma SpellOut(s: string, i: nat, w: string, tail: string)
    requires i <= |s| && s[i..] == w + " " + tail
    ensures i + |w| < |s| && s[i..i + |w|] == w && s[i + |w|] == ' ' && s[i + |w| + 1..] == tail
  {
    assert s[i..][..|w|] == w;
    assert s[i..][|w|] == ' ';
    assert s[i..][|w| + 1..] == tail;
  }

  /** A word then a space at `i`: the word is found and the scan resumes
      after the space. */
  lemma WordThenSpace(s: string, i: nat, w: string) returns (j: nat)
    requires IsWord(w) && i + |w| < |s| && s[i..i + |w|] == w && s[i + |w|] == ' '
    ensures j == i + |w| + 1
    ensures WordsFrom(s, i) == [w] + WordsFrom(s, j)
  {
    var e := i + |w|;
    assert Maximal(s, e);
    WordAt(s, i, w);
    j := ResumeAfterSpace(s, i, e, w);
  }

  /** The match at `i` ends at `e`, where a character stands that cannot
      start a match: the scan resumes after that character. */
  lemma ResumeAfterSpace(s: string, i: nat, e: nat, w: string) returns (j: nat)
    requires i < e < |s| && WordEnd(s, i) == e && s[i..e] == w
    requires !IsAsciiAlnum(s[e])
    ensures j == e + 1
    ensures WordsFrom(s, i) == [w] + WordsFrom(s, j)
  {
    j := e + 1;
    WordsFromAtEnd(s, i, e, w);
    NonWordSkipped(s, e);
  }

  /** The match at `i` ends at `j`: it is reported and the scan resumes at
      `j`. */
  lemma WordsFromAtEnd(s: string, i: nat, j: nat, w: string)
    requires i < j <= |s| && WordEnd(s, i) == j && s[i..j] == w
    ensures WordsFrom(s, i) == [w] + WordsFrom(s, j)
  {
  }

  /** A character that cannot start a match is passed over. */
  lemma NonWordSkipped(s: string, i: nat)
    requires i < |s| && !IsAsciiAlnum(s[i])
    ensures WordsFrom(s, i) == WordsFrom(s, i + 1)
  {
  }

  lemma GetWordsOfJoin(ws: seq<string>)
    requires AllWords(ws)
    ensures GetWords(Join(ws, " ")) == ws
  {
    var s := Join(ws, " ");
    assert s[0..] == s;
    WordsFromJoin(s, 0, ws);
  }

  /** A word is found as itself. */
  lemma GetWordsOfWord(w: string)
    requires IsWord(w)
    ensures GetWords(w) == [w]
  {
    assert Join([w], " ") == w;
    assert [w][1..] == [];
    GetWordsOfJoin([w]);
  }

  /** Joining the words of a string by spaces and splitting again gives the
      same words. */
  lemma GetWordsNormalise(s: string)
    ensures GetWords(Join(GetWords(s), " ")) == GetWords(s)
  {
    GetWordsAreWords(s);
    AllWordsIndex(GetWords(s));
    GetWordsOfJoin(GetWords(s));
  }

  /** A string with no letter or digit has no words. */
  lemma {:induction false} NoWordsWithoutAlnum(s: string, i: nat)
    requires i <= |s|
    requires forall k :: i <= k < |s| ==> !IsAsciiAlnum(s[k])
    ensures WordsFrom(s, i) == []
    decreases |s| - i
  {
    if i < |s| {
      NoWordsWithoutAlnum(s, i + 1);
    }
  }

  /** No word holds a newline. */
  lemma WordsHaveNoNewline(s: string)
    ensures forall w, i :: w in GetWords(s) && 0 <= i < |w| ==> w[i] != '\n'
  {
    GetWordsAreWords(s);
    forall w, i | w in GetWords(s) && 0 <= i < |w|
      ensures w[i] != '\n'
    {
      var k :| 0 <= k < |GetWords(s)| && GetWords(s)[k] == w;
      assert IsWord(GetWords(s)[k]);
    }
  }
}
