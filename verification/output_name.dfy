/** `get_output_filename`: the digits of the first `<digits>.txt` in the
    input file name choose the output file name. */
module OutputName {
  import opened Wrappers
  import opened Strings

  /** `(\d+)(\.txt)` matches at `p`. The greedy `\d+` can only give back
      digits, and a digit is never the `.` that must follow, so the group is
      the whole digit run at `p`. */
  predicate MatchAt(name: string, p: nat) {
    && p < |name|
    && IsAsciiDigit(name[p])
    && TxtAt(name, p + DigitRun(name[p..]))
  }

  /** `.txt` stands at `e`. */
  predicate TxtAt(name: string, e: nat) {
    e + 4 <= |name| && name[e] == '.' && name[e + 1] == 't' && name[e + 2] == 'x' && name[e + 3] == 't'
  }

  lemma TxtAtSlice(name: string, e: nat)
    requires e + 4 <= |name|
    ensures TxtAt(name, e) <==> name[e..e + 4] == ".txt"
  {
    if TxtAt(name, e) {
      assert name[e..e + 4] == [name[e], name[e + 1], name[e + 2], name[e + 3]];
    }
  }

  /** `.` in the lazy `(.*?)` matches anything but a newline. */
  predicate NoNewline(name: string, p: nat, q: nat) {
    forall i :: p <= i < q && i < |name| ==> name[i] != '\n'
  }

  /** The position at which `(.*?)` stops growing: the first `p' >= p` where
      the rest of the pattern matches, as long as no newline is crossed. */
  function FindMatch(name: string, p: nat): (r: Option<nat>)
    decreases |name| - p
    ensures r.Some? ==> p <= r.value && MatchAt(name, r.value) && NoNewline(name, p, r.value)
    ensures r.Some? ==> forall j :: p <= j < r.value ==> !MatchAt(name, j)
    ensures r.None? ==> forall j {:trigger MatchAt(name, j)} :: p <= j < |name| && NoNewline(name, p, j) ==> !MatchAt(name, j)
  {
    if p >= |name| then None
    else if MatchAt(name, p) then Some(p)
    else if name[p] == '\n' then None
    else FindMatch(name, p + 1)
  }

  /** The digits group of the match, if `re.match` finds one. */
  function DigitsGroup(name: string): Option<string> {
    match FindMatch(name, 0)
    case Some(q) => Some(name[q..q + DigitRun(name[q..])])
    case None => None
  }

  /** `q` is where `re.match` places the digits: a match reached from the
      start without crossing a newline, with no match before it. */
  predicate FirstMatchAt(name: string, q: nat) {
    && MatchAt(name, q)
    && NoNewline(name, 0, q)
    && forall j :: 0 <= j < q ==> !MatchAt(name, j)
  }

  /** `re.match` fails: no match is reached from the start without crossing
      a newline. */
  predicate NoMatch(name: string) {
    forall q: nat {:trigger MatchAt(name, q)} :: q < |name| && NoNewline(name, 0, q) ==> !MatchAt(name, q)
  }

  /** `get_output_filename`: the first match names the output after its
      digits; `NoMatchDefault` covers the case with no match. */
  function GetOutputFilename(name: string): (r: string)
    ensures forall q: nat {:trigger FirstMatchAt(name, q)} :: FirstMatchAt(name, q) ==>
      r == "output" + name[q..q + DigitRun(name[q..])] + ".txt"
  {
    match DigitsGroup(name)
    case Some(d) => "output" + d + ".txt"
    case None => "output.txt"
  }

  /** A digit just before a match extends it. */
  lemma ExtendLeft(name: string, q: nat)
    requires MatchAt(name, q) && 0 < q && IsAsciiDigit(name[q - 1])
    ensures MatchAt(name, q - 1)
  {
    assert name[q - 1..][1..] == name[q..];
  }

  /** The group is a whole run of digits: non-empty, digits only, and not
      preceded by a digit. */
  lemma GroupIsDigitRun(name: string)
    requires DigitsGroup(name).Some?
    ensures var q := FindMatch(name, 0).value;
      var d := DigitsGroup(name).value;
      && |d| > 0
      && (forall i :: 0 <= i < |d| ==> IsAsciiDigit(d[i]))
      && (q == 0 || !IsAsciiDigit(name[q - 1]))
      && name[q + |d|..q + |d| + 4] == ".txt"
  {
    var q := FindMatch(name, 0).value;
    GroupFound(name, q);
    MatchShape(name, q);
    if q > 0 && IsAsciiDigit(name[q - 1]) {
      ExtendLeft(name, q);
    }
  }

  /** At a match the digit run is non-empty, all digits, and followed by
      `.txt`. */
  lemma MatchShape(name: string, q: nat)
    requires MatchAt(name, q)
    ensures var d := name[q..q + DigitRun(name[q..])];
      && |d| > 0
      && (forall i :: 0 <= i < |d| ==> IsAsciiDigit(d[i]))
      && name[q + |d|..q + |d| + 4] == ".txt"
  {
    var n := DigitRun(name[q..]);
    assert name[q..][0] == name[q];
    assert forall i :: 0 <= i < n ==> name[q..q + n][i] == name[q..][i];
    TxtAtSlice(name, q + n);
  }

  /** Digits `d` followed by `.txt` at `q`, with no digit and no newline
      before `q`, select `d`. */
  lemma DigitsAt(name: string, q: nat, d: string)
    requires |d| > 0 && forall i :: 0 <= i < |d| ==> IsAsciiDigit(d[i])
    requires q + |d| + 4 <= |name| && name[q..q + |d|] == d && name[q + |d|..q + |d| + 4] == ".txt"
    requires forall j :: 0 <= j < q ==> !IsAsciiDigit(name[j]) && name[j] != '\n'
    ensures GetOutputFilename(name) == "output" + d + ".txt"
  {
    DigitRunAt(name, q, d);
    FirstMatchFound(name, q);
    FoundNames(name, q);
  }

  /** What the scan finds names the output. */
  lemma FoundNames(name: string, q: nat)
    requires FindMatch(name, 0) == Some(q)
    ensures GetOutputFilename(name) == "output" + name[q..q + DigitRun(name[q..])] + ".txt"
  {
    GroupFound(name, q);
    GroupNames(name, name[q..q + DigitRun(name[q..])]);
  }

  lemma GroupFound(name: string, q: nat)
    requires FindMatch(name, 0) == Some(q)
    ensures DigitsGroup(name) == Some(name[q..q + DigitRun(name[q..])])
  {
  }

  lemma GroupNames(name: string, d: string)
    requires DigitsGroup(name) == Some(d)
    ensures GetOutputFilename(name) == "output" + d + ".txt"
  {
  }

  /** The scan from the start stops at the first match. */
  lemma FirstMatchFound(name: string, q: nat)
    requires FirstMatchAt(name, q)
    ensures FindMatch(name, 0) == Some(q)
  {
  }

  /** Without a match the output is `output.txt`. */
  lemma NoMatchDefault(name: string)
    requires NoMatch(name)
    ensures GetOutputFilename(name) == "output.txt"
  {
  }

  /** The digit run at `q` is `d` when `d` is followed by `.txt` there. */
  lemma DigitRunAt(name: string, q: nat, d: string)
    requires |d| > 0 && forall i :: 0 <= i < |d| ==> IsAsciiDigit(d[i])
    requires q + |d| + 4 <= |name| && name[q..q + |d|] == d && name[q + |d|..q + |d| + 4] == ".txt"
    ensures MatchAt(name, q) && DigitRun(name[q..]) == |d| && name[q..q + DigitRun(name[q..])] == d
  {
    assert forall i :: 0 <= i < |d| ==> name[q..][i] == d[i] by {
      assert forall i :: 0 <= i < |d| ==> name[q..q + |d|][i] == name[q..][i];
    }
    assert name[q..][|d|] == '.' by {
      assert name[q + |d|..q + |d| + 4][0] == '.';
    }
  }

  /** A name whose stem holds no digit and no newline keeps the number in
      front of `.txt`. */
  lemma NumberedName(stem: string, n: nat, rest: string)
    requires forall i :: 0 <= i < |stem| ==> !IsAsciiDigit(stem[i]) && stem[i] != '\n'
    ensures GetOutputFilename(stem + NatToString(n) + ".txt" + rest) == "output" + NatToString(n) + ".txt"
  {
    var d := NatToString(n);
    var name := stem + d + ".txt" + rest;
    var q := |stem|;
    assert name[q..q + |d|] == d;
    assert name[q + |d|..q + |d| + 4] == ".txt";
    DigitsAt(name, q, d);
  }

  /** `FindMatch` from `p` is the first match position, when no newline comes
      before it. */
  lemma {:induction false} FindFirst(name: string, p: nat, q: nat)
    requires p <= q && MatchAt(name, q) && NoNewline(name, p, q)
    requires forall j :: p <= j < q ==> !MatchAt(name, j)
    ensures FindMatch(name, p) == Some(q)
    decreases q - p
  {
    if p < q {
      FindFirst(name, p + 1, q);
    }
  }

  /** A digit run that is never followed by `.` cannot match, so a name like
      `a1b.txt` keeps the default. */
  lemma NoNumberedSuffixDefault(name: string)
    requires forall i :: 0 < i < |name| && name[i] == '.' ==> !IsAsciiDigit(name[i - 1])
    ensures GetOutputFilename(name) == "output.txt"
  {
    forall p: nat | p < |name|
      ensures !MatchAt(name, p)
    {
      NoDigitBeforeDot(name, p);
    }
    NoMatchDefault(name);
  }

  lemma NoDigitBeforeDot(name: string, p: nat)
    requires p < |name|
    requires forall i :: 0 < i < |name| && name[i] == '.' ==> !IsAsciiDigit(name[i - 1])
    ensures !MatchAt(name, p)
  {
    var rest := name[p..];
    assert rest[0] == name[p];
    var n := DigitRun(rest);
    if n > 0 && p + n + 4 <= |name| {
      assert name[p + n..p + n + 4][0] == name[p + n];
      assert rest[n - 1] == name[p + n - 1];
    }
  }

  /** Without a digit there is no match. */
  lemma NoDigitDefault(name: string)
    requires forall i :: 0 <= i < |name| ==> !IsAsciiDigit(name[i])
    ensures GetOutputFilename(name) == "output.txt"
  {
  }
}
