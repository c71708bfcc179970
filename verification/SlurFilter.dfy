/** The slur filter (engine/moderation/SlurFilter.cpp): splits a normalized message into words and looks
    them, and their stems, up. */
module SlurFilter {
  import opened Common
  import opened Utf8
  import opened Utf8Bytes
  import opened SlurNormalizer

  // ----- words

  /** The first position from `i` on that begins a word, or the length. */
  function Skip(s: Text, i: nat): (j: nat)
    requires i <= |s|
    ensures i <= j <= |s| && (j < |s| ==> IsAlnum(s[j]))
    decreases |s| - i
  {
    if i < |s| && !IsAlnum(s[i]) then Skip(s, i + 1) else i
  }

  function WordEnd(s: Text, i: nat): (j: nat)
    requires i <= |s|
    ensures i <= j <= |s| && (i < |s| && IsAlnum(s[i]) ==> i < j)
    decreases |s| - i
  {
    if i < |s| && IsAlnum(s[i]) then WordEnd(s, i + 1) else i
  }

  function TokensFrom(s: Text, i: nat): seq<Text>
    requires i <= |s|
    decreases |s| - i
  {
    var j := Skip(s, i);
    if j == |s| then [] else [s[j..WordEnd(s, j)]] + TokensFrom(s, WordEnd(s, j))
  }

  function Tokens(s: Text): seq<Text> {
    TokensFrom(s, 0)
  }

  predicate Word(s: Text) {
    s != [] && forall k :: 0 <= k < |s| ==> IsAlnum(s[k])
  }

  lemma {:induction false} WordRuns(s: Text, i: nat)
    requires i <= |s|
    ensures forall k :: i <= k < WordEnd(s, i) ==> IsAlnum(s[k])
    ensures (forall k :: i <= k < |s| ==> IsAlnum(s[k])) ==> WordEnd(s, i) == |s|
    decreases |s| - i
  {
    if i < |s| && IsAlnum(s[i]) {
      WordRuns(s, i + 1);
    }
  }

  lemma {:induction false} TokensAreWords(s: Text, i: nat, t: Text)
    requires i <= |s| && t in TokensFrom(s, i)
    ensures Word(t)
    decreases |s| - i
  {
    var j := Skip(s, i);
    var e := WordEnd(s, j);
    if t == s[j..e] {
      WordRuns(s, j);
    } else {
      TokensAreWords(s, e, t);
    }
  }

  /** A word alone is one token. */
  lemma WordIsToken(w: Text)
    requires Word(w)
    ensures Tokens(w) == [w]
  {
    WordRuns(w, 0);
    assert Skip(w, 0) == 0 && WordEnd(w, 0) == |w|;
    assert w[0..|w|] == w;
    assert TokensFrom(w, |w|) == [];
  }

  /** Any other character separates: the tokens are those before it and those after it. With the lemma
      above this says what tokens are: the maximal runs of letters and digits, in order. */
  lemma TokensSplit(a: Text, c: CodeUnit, b: Text)
    requires !IsAlnum(c)
    ensures Tokens(a + [c] + b) == Tokens(a) + Tokens(b)
  {
    TokensBefore(a, c, b, 0);
  }

  lemma {:induction false} SkipBefore(a: Text, c: CodeUnit, b: Text, i: nat)
    requires !IsAlnum(c) && i <= |a|
    ensures var all := a + [c] + b;
      Skip(all, i) == if Skip(a, i) < |a| then Skip(a, i) else Skip(all, |a| + 1)
    decreases |a| - i
  {
    var all := a + [c] + b;
    if i == |a| {
      assert all[i] == c;
    } else {
      assert all[i] == a[i];
      if !IsAlnum(a[i]) { SkipBefore(a, c, b, i + 1); }
    }
  }

  lemma {:induction false} WordEndBefore(a: Text, c: CodeUnit, b: Text, i: nat)
    requires !IsAlnum(c) && i <= |a|
    ensures WordEnd(a + [c] + b, i) == WordEnd(a, i)
    decreases |a| - i
  {
    var all := a + [c] + b;
    if i == |a| {
      assert all[i] == c;
    } else {
      assert all[i] == a[i];
      if IsAlnum(a[i]) { WordEndBefore(a, c, b, i + 1); }
    }
  }

  lemma {:induction false} SkipAfter(p: Text, b: Text, i: nat)
    requires i <= |b|
    ensures Skip(p + b, |p| + i) == |p| + Skip(b, i)
    decreases |b| - i
  {
    if i < |b| {
      assert (p + b)[|p| + i] == b[i];
      if !IsAlnum(b[i]) { SkipAfter(p, b, i + 1); }
    }
  }

  lemma {:induction false} WordEndAfter(p: Text, b: Text, i: nat)
    requires i <= |b|
    ensures WordEnd(p + b, |p| + i) == |p| + WordEnd(b, i)
    decreases |b| - i
  {
    if i < |b| {
      assert (p + b)[|p| + i] == b[i];
      if IsAlnum(b[i]) { WordEndAfter(p, b, i + 1); }
    }
  }

  lemma {:induction false} TokensAfter(p: Text, b: Text, i: nat)
    requires i <= |b|
    ensures TokensFrom(p + b, |p| + i) == TokensFrom(b, i)
    decreases |b| - i
  {
    SkipAfter(p, b, i);
    var j := Skip(b, i);
    if j < |b| {
      WordEndAfter(p, b, j);
      var e := WordEnd(b, j);
      SliceAfter(p, b, j, e);
      TokensAfter(p, b, e);
    }
  }

  lemma SliceAfter(p: Text, b: Text, j: nat, e: nat)
    requires j <= e <= |b|
    ensures (p + b)[|p| + j..|p| + e] == b[j..e]
  {
  }

  lemma {:induction false} TokensBefore(a: Text, c: CodeUnit, b: Text, i: nat)
    requires !IsAlnum(c) && i <= |a|
    ensures TokensFrom(a + [c] + b, i) == TokensFrom(a, i) + Tokens(b)
    decreases |a| - i
  {
    var all := a + [c] + b;
    SkipBefore(a, c, b, i);
    var j := Skip(a, i);
    if j < |a| {
      WordEndBefore(a, c, b, j);
      var e := WordEnd(a, j);
      SliceBefore(a, [c] + b, j, e);
      assert all == a + ([c] + b);
      TokensBefore(a, c, b, e);
      Regroup([a[j..e]], TokensFrom(a, e), Tokens(b));
    } else {
      TokensAfter(a + [c], b, 0);
      SameTokens(all, i, |a| + 1);
    }
  }

  lemma SliceBefore(a: Text, b: Text, j: nat, e: nat)
    requires j <= e <= |a|
    ensures (a + b)[j..e] == a[j..e]
  {
  }

  lemma SameTokens(s: Text, i: nat, k: nat)
    requires i <= |s| && k <= |s| && Skip(s, i) == Skip(s, k)
    ensures TokensFrom(s, i) == TokensFrom(s, k)
  {
  }

  // ----- stems

  const ERS: Text := [0x65, 0x72, 0x73]
  const ING: Text := [0x69, 0x6E, 0x67]
  const ED: Text := [0x65, 0x64]
  const ER: Text := [0x65, 0x72]
  const ES: Text := [0x65, 0x73]
  const S: Text := [0x73]

  predicate EndsWith(token: Text, suffix: Text) {
    |token| >= |suffix| + 3 && token[|token| - |suffix|..] == suffix
  }

  /** A token without its ending, if at least three characters are left. */
  function StripSuffix(token: Text): (stem: Text)
    ensures stem <= token && (stem != token ==> |stem| >= 3)
  {
    if EndsWith(token, ERS) || EndsWith(token, ING) then token[..|token| - 3]
    else if EndsWith(token, ED) || EndsWith(token, ER) || EndsWith(token, ES) then token[..|token| - 2]
    else if EndsWith(token, S) then token[..|token| - 1]
    else token
  }

  /** The endings a token may lose. */
  predicate IsEnding(e: Text) { e == ERS || e == ING || e == ED || e == ER || e == ES || e == S }

  /** The token ends in that ending, with three characters or more in front of it. */
  predicate Fits(token: Text, ending: Text) {
    |token| >= |ending| + 3 && token == token[..|token| - |ending|] + ending
  }

  /** No ending, or one that the token fits, and no longer one fits. */
  ghost predicate LosesEnding(token: Text, ending: Text) {
    && (ending == [] || (IsEnding(ending) && Fits(token, ending)))
    && forall e :: IsEnding(e) && Fits(token, e) ==> |e| <= |ending|
  }

  lemma EndsWithIff(token: Text, ending: Text)
    ensures EndsWith(token, ending) <==> Fits(token, ending)
  {
    if |token| >= |ending| {
      assert token == token[..|token| - |ending|] + token[|token| - |ending|..];
      if Fits(token, ending) {
        assert token[|token| - |ending|..] == ending;
      }
    }
  }

  /** A stem is the token without the longest ending it fits. */
  lemma StemIff(token: Text, stem: Text)
    ensures StripSuffix(token) == stem <==> exists ending :: token == stem + ending && LosesEnding(token, ending)
  {
    var lost := LostEnding(token);
    LostFits(token, lost);
    NoLongerFits(token, lost);
    assert LosesEnding(token, lost);
    forall ending | token == stem + ending && LosesEnding(token, ending) ensures stem == StripSuffix(token) {
      assert stem == token[..|token| - |ending|];
    }
  }

  /** The ending that goes. */
  function LostEnding(token: Text): Text {
    if EndsWith(token, ERS) then ERS else if EndsWith(token, ING) then ING
    else if EndsWith(token, ED) then ED else if EndsWith(token, ER) then ER else if EndsWith(token, ES) then ES
    else if EndsWith(token, S) then S else []
  }

  lemma LostFits(token: Text, lost: Text)
    requires lost == LostEnding(token)
    ensures |lost| <= |token| && StripSuffix(token) == token[..|token| - |lost|] && token == StripSuffix(token) + lost
    ensures lost == [] || (IsEnding(lost) && Fits(token, lost))
  {
    EndsWithIff(token, lost);
  }

  lemma NoLongerFits(token: Text, lost: Text)
    requires lost == LostEnding(token)
    ensures forall e :: IsEnding(e) && Fits(token, e) ==> |e| <= |lost|
  {
    forall e | IsEnding(e) && Fits(token, e) ensures |e| <= |lost| {
      EndsWithIff(token, e);
    }
  }

  // ----- looking up

  /** The word of the list that a token matches: itself or its stem, unless that is excepted. */
  function Candidate(words: set<Text>, exceptions: set<Text>, token: Text): (c: Option<Text>)
    ensures c.Some? ==> c.value in words && c.value !in exceptions && token !in exceptions
  {
    if token in exceptions then None
    else if token in words then Some(token)
    else
      var stem := StripSuffix(token);
      if |stem| < |token| && stem !in exceptions && stem in words then Some(stem) else None
  }

  /** A token matches a listed word exactly when neither is excepted and the word is the token, or what is
      left of it without its longest ending while the token is not listed itself. */
  lemma CandidateIff(words: set<Text>, exceptions: set<Text>, token: Text, w: Text)
    ensures Candidate(words, exceptions, token) == Some(w) <==>
      && token !in exceptions && w in words && w !in exceptions
      && (w == token
          || (token !in words && exists ending :: ending != [] && token == w + ending && LosesEnding(token, ending)))
  {
    StemIff(token, w);
    var lost := LostEnding(token);
    LostFits(token, lost);
    NoLongerFits(token, lost);
    assert LosesEnding(token, lost);
  }

  function Candidates(words: set<Text>, exceptions: set<Text>, tokens: seq<Text>): seq<Text> {
    if tokens == [] then []
    else
      var c := Candidate(words, exceptions, tokens[|tokens| - 1]);
      Candidates(words, exceptions, tokens[..|tokens| - 1]) + if c.Some? then [c.value] else []
  }

  /** The first occurrences, in order. */
  function Firsts(cs: seq<Text>): seq<Text> {
    if cs == [] then []
    else
      var f, last := Firsts(cs[..|cs| - 1]), cs[|cs| - 1];
      if last in f then f else f + [last]
  }

  datatype Result = Result(matched: seq<Text>, score: real)

  const CLEAN := Result([], 0.0)

  function Scanned(enabled: bool, matchScore: real, words: set<Text>, exceptions: set<Text>, message: Text): Result {
    if !enabled then CLEAN
    else
      var matched := Firsts(Candidates(words, exceptions, Tokens(Normalized(message))));
      if matched == [] then CLEAN else Result(matched, matchScore)
  }

  lemma {:induction false} CandidatesHold(words: set<Text>, exceptions: set<Text>, tokens: seq<Text>, k: nat)
    requires k < |tokens| && Candidate(words, exceptions, tokens[k]).Some?
    ensures Candidate(words, exceptions, tokens[k]).value in Candidates(words, exceptions, tokens)
  {
    if k < |tokens| - 1 {
      CandidatesHold(words, exceptions, tokens[..|tokens| - 1], k);
    }
  }

  lemma {:induction false} CandidatesComeFrom(words: set<Text>, exceptions: set<Text>, tokens: seq<Text>, w: Text) returns (k: nat)
    requires w in Candidates(words, exceptions, tokens)
    ensures k < |tokens| && Candidate(words, exceptions, tokens[k]) == Some(w)
  {
    var n := |tokens| - 1;
    if w in Candidates(words, exceptions, tokens[..n]) {
      k := CandidatesComeFrom(words, exceptions, tokens[..n], w);
    } else {
      k := n;
    }
  }

  lemma {:induction false} FirstsAre(cs: seq<Text>, w: Text)
    ensures w in Firsts(cs) <==> w in cs
  {
    if cs != [] {
      FirstsAre(cs[..|cs| - 1], w);
      assert cs == cs[..|cs| - 1] + [cs[|cs| - 1]];
    }
  }

  lemma {:induction false} FirstsDiffer(cs: seq<Text>)
    ensures forall i, j :: 0 <= i < j < |Firsts(cs)| ==> Firsts(cs)[i] != Firsts(cs)[j]
  {
    if cs != [] {
      FirstsDiffer(cs[..|cs| - 1]);
    }
  }

  /** What a scan reports is exactly the words that some token of the message matches, each once. */
  lemma ScanIsExact(enabled: bool, matchScore: real, words: set<Text>, exceptions: set<Text>, message: Text, w: Text)
    ensures var r := Scanned(enabled, matchScore, words, exceptions, message); var tokens := Tokens(Normalized(message));
      && (w in r.matched <==> enabled && exists k :: 0 <= k < |tokens| && Candidate(words, exceptions, tokens[k]) == Some(w))
      && (forall i, j :: 0 <= i < j < |r.matched| ==> r.matched[i] != r.matched[j])
      && r.score == if r.matched == [] then 0.0 else matchScore
  {
    var tokens := Tokens(Normalized(message));
    var cs := Candidates(words, exceptions, tokens);
    FirstsAre(cs, w);
    FirstsDiffer(cs);
    if k :| 0 <= k < |tokens| && Candidate(words, exceptions, tokens[k]) == Some(w) {
      CandidatesHold(words, exceptions, tokens, k);
    }
    if w in cs {
      var k := CandidatesComeFrom(words, exceptions, tokens, w);
    }
  }

  /** Combining marks and zero-width characters do not help to get past the filter. */
  lemma ScanIgnoresInsertions(enabled: bool, matchScore: real, words: set<Text>, exceptions: set<Text>, a: Text, cp: CodePoint, b: Text)
    requires WellFormed(a) && IsIgnored(cp)
    ensures Scalar(cp)
    ensures Scanned(enabled, matchScore, words, exceptions, a + Encode(cp) + b) == Scanned(enabled, matchScore, words, exceptions, a + b)
  {
    InsertionInvisible(a, cp, b);
  }

  // ----- the lists

  /** The word an entry of a list stands for: its first token. */
  function EntryWord(entry: Text): Option<Text> {
    var tokens := Tokens(Normalized(entry));
    if tokens == [] then None else Some(tokens[0])
  }

  function EntryWords(raw: seq<Text>): (ws: seq<Option<Text>>)
    ensures |ws| == |raw|
  {
    if raw == [] then [] else EntryWords(raw[..|raw| - 1]) + [EntryWord(raw[|raw| - 1])]
  }

  lemma {:induction false} EntryWordsAt(raw: seq<Text>, k: nat)
    requires k < |raw|
    ensures EntryWords(raw)[k] == EntryWord(raw[k])
  {
    if k < |raw| - 1 {
      EntryWordsAt(raw[..|raw| - 1], k);
    }
  }

  function LongEnough(ws: seq<Option<Text>>, shortest: nat): set<Text> {
    if ws == [] then {}
    else
      var w := ws[|ws| - 1];
      LongEnough(ws[..|ws| - 1], shortest) + if w.Some? && |w.value| >= shortest then {w.value} else {}
  }

  /** The words of a list, without those too short to be unambiguous. */
  function WordsOf(raw: seq<Text>, shortest: nat): set<Text> {
    LongEnough(EntryWords(raw), shortest)
  }

  lemma {:induction false} LongEnoughAre(ws: seq<Option<Text>>, shortest: nat, w: Text)
    ensures w in LongEnough(ws, shortest) <==> |w| >= shortest && exists k :: 0 <= k < |ws| && ws[k] == Some(w)
  {
    if ws != [] {
      var n := |ws| - 1;
      LongEnoughAre(ws[..n], shortest, w);
      if k :| 0 <= k < |ws| && ws[k] == Some(w) {
        if k < n { assert ws[..n][k] == ws[k]; }
      }
    }
  }

  lemma WordsAre(raw: seq<Text>, shortest: nat, k: nat)
    requires k < |raw| && EntryWord(raw[k]).Some?
    ensures EntryWord(raw[k]).value in WordsOf(raw, shortest) <==> |EntryWord(raw[k]).value| >= shortest
  {
    EntryWordsAt(raw, k);
    LongEnoughAre(EntryWords(raw), shortest, EntryWord(raw[k]).value);
  }

  /** No word of a loaded list is too short. */
  lemma NoShortWords(raw: seq<Text>, shortest: nat, w: Text)
    requires w in WordsOf(raw, shortest)
    ensures |w| >= shortest && exists k :: 0 <= k < |raw| && EntryWord(raw[k]) == Some(w)
  {
    LongEnoughAre(EntryWords(raw), shortest, w);
    var k :| 0 <= k < |raw| && EntryWords(raw)[k] == Some(w);
    EntryWordsAt(raw, k);
  }

  /** A message that is an entry of the loaded list is found, unless its word is too short or excepted. */
  lemma EntryIsFound(raw: seq<Text>, exceptions: set<Text>, k: nat, matchScore: real)
    requires k < |raw| && EntryWord(raw[k]).Some?
    requires |EntryWord(raw[k]).value| >= 3 && EntryWord(raw[k]).value !in exceptions
    ensures EntryWord(raw[k]).value in Scanned(true, matchScore, WordsOf(raw, 3), exceptions, raw[k]).matched
  {
    var w := EntryWord(raw[k]).value;
    WordsAre(raw, 3, k);
    assert Candidate(WordsOf(raw, 3), exceptions, Tokens(Normalized(raw[k]))[0]) == Some(w);
    ScanIsExact(true, matchScore, WordsOf(raw, 3), exceptions, raw[k], w);
  }

  // ----- the object itself

  method Tokenize(s: Text) returns (tokens: seq<Text>)
    ensures tokens == Tokens(s)
  {
    tokens := [];
    var i := 0;
    while i < |s|
      invariant i <= |s| && tokens + TokensFrom(s, i) == Tokens(s)
    {
      ghost var from := i;
      while i < |s| && !IsAlnum(s[i])
        invariant from <= i <= |s| && Skip(s, i) == Skip(s, from)
      {
        i := i + 1;
      }
      var start := i;
      while i < |s| && IsAlnum(s[i])
        invariant start <= i <= |s| && WordEnd(s, i) == WordEnd(s, start)
      {
        i := i + 1;
      }
      if i > start {
        Regroup(tokens, [s[start..i]], TokensFrom(s, i));
        tokens := tokens + [s[start..i]];
      }
    }
  }

  class Filter {
    var enabled: bool
    var matchScore: real
    var wordlist: set<Text>
    var exceptions: set<Text>

    constructor ()
      ensures !enabled && wordlist == {} && exceptions == {}
    {
      enabled, matchScore, wordlist, exceptions := false, 0.0, {}, {};
    }

    /** Configuring does not touch the lists. */
    method Configure(enabled: bool, matchScore: real)
      modifies this`enabled, this`matchScore
      ensures this.enabled == enabled && this.matchScore == matchScore
    {
      this.enabled, this.matchScore := enabled, matchScore;
    }

    method LoadWordlist(raw: seq<Text>)
      modifies this`wordlist
      ensures wordlist == WordsOf(raw, 3)
    {
      wordlist := ReadList(raw, 3);
    }

    method LoadExceptions(raw: seq<Text>)
      modifies this`exceptions
      ensures exceptions == WordsOf(raw, 0)
    {
      exceptions := ReadList(raw, 0);
    }

    method ReadList(raw: seq<Text>, shortest: nat) returns (words: set<Text>)
      ensures words == WordsOf(raw, shortest)
    {
      words := {};
      for i := 0 to |raw|
        invariant words == WordsOf(raw[..i], shortest)
      {
        assert raw[..i + 1][..i] == raw[..i];
        var normalized := Normalize(raw[i]);
        var tokens := Tokenize(normalized);
        if tokens != [] && |tokens[0]| >= shortest {
          words := words + {tokens[0]};
        }
      }
      assert raw[..|raw|] == raw;
    }

    method Scan(message: Text) returns (out: Result)
      ensures out == Scanned(enabled, matchScore, wordlist, exceptions, message)
    {
      if !enabled { return CLEAN; }
      if wordlist == {} {
        NoWords(exceptions, Tokens(Normalized(message)));
        return CLEAN;
      }
      var normalized := Normalize(message);
      var tokens := Tokenize(normalized);
      var candidates := FindCandidates(tokens);
      if candidates == [] { return CLEAN; }
      var matched: seq<Text> := [];
      for i := 0 to |candidates|
        invariant matched == Firsts(candidates[..i])
      {
        assert candidates[..i + 1][..i] == candidates[..i];
        if candidates[i] !in matched {
          matched := matched + [candidates[i]];
        }
      }
      assert candidates[..|candidates|] == candidates;
      FirstsAre(candidates, candidates[0]);
      return Result(matched, matchScore);
    }

    method FindCandidates(tokens: seq<Text>) returns (candidates: seq<Text>)
      ensures candidates == Candidates(wordlist, exceptions, tokens)
    {
      candidates := [];
      for i := 0 to |tokens|
        invariant candidates == Candidates(wordlist, exceptions, tokens[..i])
      {
        assert tokens[..i + 1][..i] == tokens[..i];
        if tokens[i] in exceptions { continue; }
        if tokens[i] in wordlist {
          candidates := candidates + [tokens[i]];
          continue;
        }
        var stem := StripSuffix(tokens[i]);
        if |stem| < |tokens[i]| && stem !in exceptions && stem in wordlist {
          candidates := candidates + [stem];
        }
      }
      assert tokens[..|tokens|] == tokens;
    }

    lemma {:induction false} NoWords(exceptions: set<Text>, tokens: seq<Text>)
      ensures Candidates({}, exceptions, tokens) == []
    {
      if tokens != [] {
        NoWords(exceptions, tokens[..|tokens| - 1]);
      }
    }
  }
}
