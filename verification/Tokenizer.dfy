/**
 * How `execCmd` reads a command line: trimming, splitting into words that keep their position in
 * the line, and cutting keys, patterns, values and limits out of it. Replaying a log depends on
 * it, because the log stores the lines.
 */
module Tokenizer {
  import opened Base
  import opened Bytes
  import Decimal

  predicate Blank(c: char) {
    c == ' ' || c == '\t' || NewLine(c)
  }

  predicate NewLine(c: char) {
    c == '\r' || c == '\n'
  }

  predicate NoBlank(s: string) {
    forall i :: 0 <= i < |s| ==> !Blank(s[i])
  }

  predicate AllBlank(s: string) {
    forall i :: 0 <= i < |s| ==> Blank(s[i])
  }

  predicate AllNewLine(s: string) {
    forall i :: 0 <= i < |s| ==> NewLine(s[i])
  }

  /** `find_first_of` blanks, with the end for npos. */
  function NextBlank(s: string, i: nat): (r: nat)
    requires i <= |s|
    ensures i <= r <= |s| && (forall j :: i <= j < r ==> !Blank(s[j])) && (r < |s| ==> Blank(s[r]))
    decreases |s| - i
  {
    if i == |s| || Blank(s[i]) then i else NextBlank(s, i + 1)
  }

  /** `find_first_not_of` blanks, with the end for npos. */
  function NextWord(s: string, i: nat): (r: nat)
    requires i <= |s|
    ensures i <= r <= |s| && (forall j :: i <= j < r ==> Blank(s[j])) && (r < |s| ==> !Blank(s[r]))
    decreases |s| - i
  {
    if i == |s| || !Blank(s[i]) then i else NextWord(s, i + 1)
  }

  function TrimEnd(s: string): (r: string)
    ensures r <= s && AllNewLine(s[|r|..]) && (r != "" ==> !NewLine(r[|r| - 1]))
  {
    if s == "" || !NewLine(s[|s| - 1]) then s
    else
      var r := TrimEnd(s[..|s| - 1]);
      assert s[|r|..] == s[..|s| - 1][|r|..] + [s[|s| - 1]];
      r
  }

  /** A word is a view into the line. */
  datatype Word = Word(from: nat, to: nat)

  function Text(s: string, w: Word): string
    requires w.from <= w.to <= |s|
  {
    s[w.from..w.to]
  }

  /** `p` is the end of the line or the start of a word. */
  predicate AtWord(s: string, p: nat) {
    p <= |s| && (p < |s| ==> !Blank(s[p]))
  }

  function WordsFrom(s: string, pos: nat): (ws: seq<Word>)
    requires AtWord(s, pos)
    ensures forall i :: 0 <= i < |ws| ==> pos <= ws[i].from < ws[i].to <= |s|
    decreases |s| - pos
  {
    if pos == |s| then []
    else
      var end := NextBlank(s, pos);
      [Word(pos, end)] + WordsFrom(s, NextWord(s, end))
  }

  /** The word loop. */
  method SplitWords(sv: string) returns (words: seq<Word>)
    requires AtWord(sv, 0)
    ensures words == WordsFrom(sv, 0)
  {
    words := [];
    var pos := 0;
    while pos < |sv|
      invariant AtWord(sv, pos)
      invariant words + WordsFrom(sv, pos) == WordsFrom(sv, 0)
      decreases |sv| - pos
    {
      var end := NextBlank(sv, pos);
      words := words + [Word(pos, end)];
      pos := NextWord(sv, end);
    }
  }

  // ------------------------------------------- words are the maximal non-blank runs

  ghost predicate IsRun(s: string, pos: nat, w: Word) {
    && pos <= w.from < w.to <= |s| && (forall i :: w.from <= i < w.to ==> !Blank(s[i]))
    && (w.from == pos || Blank(s[w.from - 1])) && (w.to == |s| || Blank(s[w.to]))
  }

  /** The loop finds every maximal run of non-blank characters, nothing else, in order. */
  lemma {:induction false} WordsAreRuns(s: string, pos: nat)
    requires AtWord(s, pos)
    ensures forall w :: w in WordsFrom(s, pos) <==> IsRun(s, pos, w)
    ensures forall i, j :: 0 <= i < j < |WordsFrom(s, pos)| ==> WordsFrom(s, pos)[i].to < WordsFrom(s, pos)[j].from
    decreases |s| - pos
  {
    if pos < |s| {
      var end := NextBlank(s, pos);
      var next := NextWord(s, end);
      WordsAreRuns(s, next);
      forall w ensures w in WordsFrom(s, pos) <==> IsRun(s, pos, w) {
        RunSplit(s, pos, end, next, w);
      }
    }
  }

  lemma RunSplit(s: string, pos: nat, end: nat, next: nat, w: Word)
    requires pos < end <= next <= |s|
    requires (forall j :: pos <= j < end ==> !Blank(s[j])) && (forall j :: end <= j < next ==> Blank(s[j]))
    requires (end < |s| ==> Blank(s[end])) && AtWord(s, next)
    ensures IsRun(s, pos, w) <==> w == Word(pos, end) || IsRun(s, next, w)
  {
    if next <= w.from < w.to <= |s| && w.from == next {
      assert Blank(s[next - 1]);
    }
    if IsRun(s, pos, w) && w.from < end {
      assert w.from == pos;
    } else if IsRun(s, pos, w) {
      assert !Blank(s[w.from]);
    }
  }

  // ----------------------------------------------------------------- commands

  /** The default limit of the pattern commands, UINT_MAX, stands for no limit. */
  const NO_LIMIT: nat := POW32 - 1

  datatype Request =
    | NoCommand
    | MissingKey
    | MissingValue
    | MissingArguments
    | MissingPattern
    | InvalidLimit
    | Get(key: string)
    | Set(key: string, value: string)
    | Del(key: string)
    | GetBy(mode: string, pattern: string, limit: nat)
    | SetBy(mode: string, pattern: string, value: string, limit: nat)
    | DelBy(mode: string, pattern: string, limit: nat)
    | Other(name: string)

  function LowerChar(c: char): char {
    if 'A' <= c <= 'Z' then (c as int + 32) as char else c
  }

  function Lower(s: string): (r: string)
    ensures |r| == |s| && forall i :: 0 <= i < |s| ==> r[i] == LowerChar(s[i])
  {
    seq(|s|, i requires 0 <= i < |s| => LowerChar(s[i]))
  }

  predicate IsLim(word: string) {
    Lower(word) == "lim"
  }

  datatype Verb = GetVerb | SetVerb | DelVerb | GetByVerb | SetByVerb | DelByVerb | OtherVerb

  /** The command a first word names, by its long or its short form, whatever the case. */
  function VerbOf(word: string): Verb {
    var cmd := Lower(word);
    if cmd == "g" || cmd == "get" then GetVerb
    else if cmd == "s" || cmd == "set" then SetVerb
    else if cmd == "d" || cmd == "del" then DelVerb
    else if cmd == "gb" || cmd == "getby" then GetByVerb
    else if cmd == "sb" || cmd == "setby" then SetByVerb
    else if cmd == "db" || cmd == "delby" then DelByVerb
    else OtherVerb
  }

  /** The word, in any mixture of upper and lower case. */
  predicate SameButCase(word: string, low: string) {
    |word| == |low| && forall i :: 0 <= i < |low| ==> word[i] == low[i] || ('A' <= word[i] <= 'Z' && word[i] as int + 32 == low[i] as int)
  }

  /** A command has a long and a short name. */
  predicate IsName(word: string, long: string, short: string) {
    SameButCase(word, long) || SameButCase(word, short)
  }

  lemma LowerIs(word: string, low: string)
    requires forall c :: c in low ==> 'a' <= c <= 'z'
    ensures Lower(word) == low <==> SameButCase(word, low)
  {
    if |word| == |low| {
      forall i | 0 <= i < |low|
        ensures LowerChar(word[i]) == low[i] <==> word[i] == low[i] || ('A' <= word[i] <= 'Z' && word[i] as int + 32 == low[i] as int)
      {
        assert low[i] in low;
      }
    }
  }

  lemma NameIs(word: string, long: string, short: string)
    requires forall c :: c in long || c in short ==> 'a' <= c <= 'z'
    ensures IsName(word, long, short) <==> Lower(word) == long || Lower(word) == short
  {
    LowerIs(word, long);
    LowerIs(word, short);
  }

  /** The verbs by their names. */
  lemma VerbIs(word: string)
    ensures IsName(word, "get", "g") <==> VerbOf(word) == GetVerb
    ensures IsName(word, "set", "s") <==> VerbOf(word) == SetVerb
    ensures IsName(word, "del", "d") <==> VerbOf(word) == DelVerb
    ensures IsName(word, "getby", "gb") <==> VerbOf(word) == GetByVerb
    ensures IsName(word, "setby", "sb") <==> VerbOf(word) == SetByVerb
    ensures IsName(word, "delby", "db") <==> VerbOf(word) == DelByVerb
    ensures IsLim(word) <==> SameButCase(word, "lim")
  {
    hide Lower, IsName, SameButCase;
    NameIs(word, "get", "g");
    NameIs(word, "set", "s");
    NameIs(word, "del", "d");
    NameIs(word, "getby", "gb");
    NameIs(word, "setby", "sb");
    NameIs(word, "delby", "db");
    LowerIs(word, "lim");
  }

  /** A limit is an unsigned int. */
  function ParseLimit(word: string): Option<nat> {
    Decimal.ParseUInt(word, POW32)
  }

  function Texts(s: string, ws: seq<Word>): (r: seq<string>)
    requires forall i :: 0 <= i < |ws| ==> ws[i].from <= ws[i].to <= |s|
    ensures |r| == |ws| && forall i :: 0 <= i < |ws| ==> r[i] == Text(s, ws[i])
  {
    seq(|ws|, i requires 0 <= i < |ws| => Text(s, ws[i]))
  }

  /** The last `lim` among the first `n` words, from word 3 on, that has a word behind it. */
  function LastLim(words: seq<string>, n: nat): (r: Option<nat>)
    requires n <= |words|
    ensures r.Some? ==> 3 <= r.value < n && r.value + 1 < |words| && IsLim(words[r.value])
    ensures forall i :: 3 <= i < n && i + 1 < |words| && IsLim(words[i]) ==> r.Some? && i <= r.value
  {
    if n <= 3 then None
    else if n < |words| && IsLim(words[n - 1]) then Some(n - 1)
    else LastLim(words, n - 1)
  }

  /** The limit of `getby` and `delby`: the last one given decides; None when that is no number. */
  function LimitOf(words: seq<string>, n: nat): Option<nat>
    requires n <= |words|
  {
    var last := LastLim(words, n);
    if last.None? then Some(NO_LIMIT) else ParseLimit(words[last.value + 1])
  }

  /** The option loop of `getby` and `delby`. */
  method ScanLimit(words: seq<string>) returns (limitOk: bool, limit: nat)
    requires |words| >= 3
    ensures LimitOf(words, |words|) == if limitOk then Some(limit) else None
  {
    limitOk, limit := true, NO_LIMIT;
    for i := 3 to |words|
      invariant LimitOf(words, i) == if limitOk then Some(limit) else None
    {
      if IsLim(words[i]) && i + 1 < |words| {
        var n := Decimal.FromChars(words[i + 1], POW32);
        limit := if n.Some? then n.value.0 else limit;
        limitOk := n.Some? && n.value.1 == |words[i + 1]|;
      }
    }
  }

  function ReadSet(sv: string, ws: seq<Word>, words: seq<string>): Request
    requires |words| == |ws| && forall i :: 0 <= i < |ws| ==> ws[i].from <= ws[i].to <= |sv|
  {
    if |words| < 2 then MissingKey
    else if |words| < 3 then MissingValue
    else Set(words[1], sv[ws[2].from..])
  }

  function ReadSetBy(sv: string, ws: seq<Word>, words: seq<string>): Request
    requires |words| == |ws| && forall i :: 0 <= i < |ws| ==> ws[i].from <= ws[i].to <= |sv|
    requires forall i, j :: 0 <= i < j < |ws| ==> ws[i].to <= ws[j].from
  {
    var n := |words|;
    if n < 4 then MissingValue
    else
      var limited := n >= 6 && IsLim(words[n - 2]);
      var limit := if limited then ParseLimit(words[n - 1]) else Some(NO_LIMIT);
      var valEnd := if limited then ws[n - 3].to else |sv|;
      if limit.None? then InvalidLimit
      else SetBy(Lower(words[1]), words[2], sv[ws[3].from..valEnd], limit.value)
  }

  function ReadDelBy(words: seq<string>): Request {
    if |words| < 3 then MissingPattern
    else
      var limit := LimitOf(words, |words|);
      if limit.None? then InvalidLimit else DelBy(Lower(words[1]), words[2], limit.value)
  }

  function ReadGetBy(words: seq<string>): Request {
    if |words| < 3 then MissingArguments
    else
      var limit := LimitOf(words, |words|);
      if limit.None? then InvalidLimit else GetBy(Lower(words[1]), words[2], limit.value)
  }

  function Interpret(sv: string): Request
    requires sv != "" && AtWord(sv, 0)
  {
    var ws := WordsFrom(sv, 0);
    WordsAreRuns(sv, 0);
    var words := Texts(sv, ws);
    match VerbOf(words[0])
    case GetVerb => if |words| < 2 then MissingKey else Get(words[1])
    case SetVerb => ReadSet(sv, ws, words)
    case DelVerb => if |words| < 2 then MissingKey else Del(words[1])
    case GetByVerb => ReadGetBy(words)
    case SetByVerb => ReadSetBy(sv, ws, words)
    case DelByVerb => ReadDelBy(words)
    case OtherVerb => Other(words[0])
  }

  function Parse(command: string): Request {
    var start := NextWord(command, 0);
    if start == |command| then NoCommand
    else
      var sv := TrimEnd(command[start..]);
      TrimKeepsWord(command[start..]);
      Interpret(sv)
  }

  lemma TrimKeepsWord(s: string)
    requires s != "" && !Blank(s[0])
    ensures TrimEnd(s) != "" && TrimEnd(s)[0] == s[0]
  {
  }

  // -------------------------------------------------- words of printed lines

  /** `s` holds the word `w` at `pos`, followed by the blanks `gap`, and then a word or the end. */
  ghost predicate Holds(s: string, pos: nat, w: string, gap: string) {
    var m := pos + |w|;
    var n := m + |gap|;
    && w != "" && NoBlank(w) && AllBlank(gap) && n <= |s| && s[pos..m] == w && s[m..n] == gap
    && AtWord(s, n) && (gap == "" ==> n == |s|)
  }

  lemma FirstWord(s: string, pos: nat, w: string, gap: string)
    requires Holds(s, pos, w, gap)
    ensures AtWord(s, pos)
    ensures WordsFrom(s, pos) == [Word(pos, pos + |w|)] + WordsFrom(s, pos + |w| + |gap|)
  {
    var m := pos + |w|;
    var n := m + |gap|;
    forall i | pos <= i < m ensures !Blank(s[i]) {
      assert s[i] == w[i - pos];
    }
    forall i | m <= i < n ensures Blank(s[i]) {
      assert s[i] == gap[i - m];
    }
    BlankIs(s, pos, m);
    WordIs(s, m, n);
  }

  lemma BlankIs(s: string, i: nat, r: nat)
    requires i <= r <= |s| && (forall j :: i <= j < r ==> !Blank(s[j])) && (r < |s| ==> Blank(s[r]))
    ensures NextBlank(s, i) == r
  {
  }

  lemma WordIs(s: string, i: nat, r: nat)
    requires AtWord(s, r) && i <= r && (forall j :: i <= j < r ==> Blank(s[j]))
    ensures NextWord(s, i) == r
  {
  }

  lemma HoldsIn(s: string, pre: string, w: string, gap: string, post: string)
    requires w != "" && NoBlank(w) && AllBlank(gap) && (post == "" || (gap != "" && !Blank(post[0])))
    requires s == pre + w + gap + post
    ensures Holds(s, |pre|, w, gap) && s[|pre| + |w| + |gap|..] == post
  {
    var m := |pre| + |w|;
    var n := m + |gap|;
    assert s[|pre|..m] == w && s[m..n] == gap && s[n..] == post;
    assert n < |s| ==> s[n] == post[0];
  }

  /** Blanks in the middle of a line separate the words before them from the words behind. */
  lemma {:induction false} WordsSplit(s: string, pos: nat, m: nat, n: nat)
    requires AtWord(s, pos) && pos < m < n <= |s| && AtWord(s, n)
    requires !Blank(s[m - 1]) && forall j :: m <= j < n ==> Blank(s[j])
    ensures WordsFrom(s, pos) == WordsFrom(s[..m], pos) + WordsFrom(s, n)
    ensures var ws := WordsFrom(s[..m], pos); ws != [] && ws[|ws| - 1].to == m
    decreases |s| - pos
  {
    hide WordsFrom, NextBlank, NextWord, Line, Behind, Limited, LimitText, Interpret, Parse, Lower, VerbOf, IsLim;
    var t := s[..m];
    var end := NextBlank(s, pos);
    var next := NextWord(s, end);
    WordsUnfold(s, pos);
    BeforeCut(s, pos, m, n);
    WordsUnfold(t, pos);
    if end < m {
      WordsSplit(s, next, m, n);
    }
  }

  lemma WordsUnfold(s: string, pos: nat)
    requires AtWord(s, pos) && pos < |s|
    ensures pos < NextBlank(s, pos) && AtWord(s, NextWord(s, NextBlank(s, pos)))
    ensures WordsFrom(s, pos) == [Word(pos, NextBlank(s, pos))] + WordsFrom(s, NextWord(s, NextBlank(s, pos)))
  {
  }

  /** The first word ends, and the next one starts, at the same place in a line cut behind a word. */
  lemma BeforeCut(s: string, pos: nat, m: nat, n: nat)
    requires AtWord(s, pos) && pos < m < n <= |s| && AtWord(s, n)
    requires !Blank(s[m - 1]) && forall j :: m <= j < n ==> Blank(s[j])
    ensures AtWord(s[..m], pos)
    ensures var t, end := s[..m], NextBlank(s, pos);
            && NextBlank(t, pos) == end <= m
            && NextWord(t, end) == (if end < m then NextWord(s, end) else m)
            && (if end < m then NextWord(s, end) < m else NextWord(s, end) == n)
            && WordsFrom(t, m) == []
  {
    hide NextBlank, NextWord;
    var t := s[..m];
    var end := NextBlank(s, pos);
    var next := NextWord(s, end);
    assert end <= m by {
      assert Blank(s[m]);
    }
    BlankIs(t, pos, end);
    if end < m {
      assert next < m by {
        assert !Blank(s[m - 1]);
      }
      WordIs(t, end, next);
    } else {
      WordIs(s, m, n);
      WordIs(t, m, m);
    }
  }

  /** A command name is a word. */
  lemma NameIsWord(name: string)
    requires !VerbOf(name).OtherVerb?
    ensures name != "" && NoBlank(name)
  {
    var low := Lower(name);
    forall i | 0 <= i < |name| ensures !Blank(name[i]) {
      assert low[i] == LowerChar(name[i]);
    }
  }

  lemma TrimIs(body: string, lead: string, tail: string)
    requires body != "" && !Blank(body[0]) && !NewLine(body[|body| - 1])
    requires AllBlank(lead) && AllNewLine(tail)
    ensures Parse(lead + body + tail) == Interpret(body)
  {
    var command := lead + body + tail;
    assert NextWord(command, 0) == |lead| by {
      assert forall j :: 0 <= j < |lead| ==> command[j] == lead[j];
      assert command[|lead|] == body[0];
    }
    assert command[|lead|..] == body + tail;
    TrimTail(body, tail);
  }

  lemma {:induction false} TrimTail(body: string, tail: string)
    requires body != "" && !NewLine(body[|body| - 1]) && AllNewLine(tail)
    ensures TrimEnd(body + tail) == body
  {
    if tail == "" {
      assert body + tail == body;
    } else {
      TrimTail(body, tail[..|tail| - 1]);
      assert (body + tail)[..|body + tail| - 1] == body + tail[..|tail| - 1];
    }
  }

  // ------------------------------------------------------------- round trips

  /** A value that survives in a line: it starts with a non-blank and does not end in CR or LF. */
  predicate ValueOk(value: string) {
    value != "" && !Blank(value[0]) && !NewLine(value[|value| - 1])
  }

  predicate Separator(gap: string) {
    gap != "" && AllBlank(gap)
  }

  /** The text of a `set`, with any blanks between the parts. */
  ghost predicate SetLine(command: string, lead: string, name: string, g1: string, key: string, g2: string, value: string,
                          tail: string) {
    && command == lead + Line(name, g1, key, g2, value) + tail
    && AllBlank(lead) && IsName(name, "set", "s") && Separator(g1) && Separator(g2)
    && key != "" && NoBlank(key) && ValueOk(value) && AllNewLine(tail)
  }

  /** A line of two words and a rest. */
  function Line(a: string, g1: string, b: string, g2: string, rest: string): string {
    a + g1 + b + g2 + rest
  }

  lemma LineWord1(a: string, g1: string, b: string, g2: string, rest: string)
    requires a != "" && NoBlank(a) && Separator(g1) && b != "" && NoBlank(b)
    ensures Holds(Line(a, g1, b, g2, rest), 0, a, g1)
  {
    var s := Line(a, g1, b, g2, rest);
    var post := b + g2 + rest;
    assert s == "" + a + g1 + post;
    HoldsIn(s, "", a, g1, post);
  }

  lemma LineWord2(a: string, g1: string, b: string, g2: string, rest: string)
    requires b != "" && NoBlank(b) && Separator(g2) && (rest != "" ==> !Blank(rest[0]))
    ensures Holds(Line(a, g1, b, g2, rest), |a| + |g1|, b, g2)
    ensures var n := |a| + |g1| + |b| + |g2|; |Line(a, g1, b, g2, rest)| == n + |rest| && Line(a, g1, b, g2, rest)[n..] == rest
  {
    HoldsIn(Line(a, g1, b, g2, rest), a + g1, b, g2, rest);
  }

  lemma SetWords(name: string, g1: string, key: string, g2: string, rest: string)
    requires name != "" && NoBlank(name) && Separator(g1) && key != "" && NoBlank(key) && Separator(g2)
    requires rest != "" && !Blank(rest[0])
    ensures var sv := Line(name, g1, key, g2, rest);
            var a, b, c := |name|, |name| + |g1|, |name| + |g1| + |key|;
            && |sv| == c + |g2| + |rest| && AtWord(sv, 0) && AtWord(sv, c + |g2|)
            && WordsFrom(sv, 0) == [Word(0, a), Word(b, c)] + WordsFrom(sv, c + |g2|)
            && sv[..a] == name && sv[b..c] == key && sv[c + |g2|..] == rest
  {
    hide WordsFrom, NextBlank, NextWord, Line, Behind, Limited, LimitText, Interpret, Parse, Lower, VerbOf, IsLim;
    var sv := Line(name, g1, key, g2, rest);
    LineWord1(name, g1, key, g2, rest);
    LineWord2(name, g1, key, g2, rest);
    FirstWord(sv, 0, name, g1);
    FirstWord(sv, |name| + |g1|, key, g2);
  }

  lemma SetRoundTrip(command: string, lead: string, name: string, g1: string, key: string, g2: string, value: string,
                     tail: string)
    requires SetLine(command, lead, name, g1, key, g2, value, tail)
    ensures Parse(command) == Set(key, value)
  {
    VerbIs(name);
    NameIsWord(name);
    LineEnds(name, g1, key, g2, value);
    hide IsName;
    SetInterpreted(name, g1, key, g2, value);
    hide Interpret, Parse, Line, VerbOf;
    TrimIs(Line(name, g1, key, g2, value), lead, tail);
  }

  lemma SetInterpreted(name: string, g1: string, key: string, g2: string, value: string)
    requires name != "" && NoBlank(name) && VerbOf(name) == SetVerb
    requires Separator(g1) && key != "" && NoBlank(key) && Separator(g2) && value != "" && !Blank(value[0])
    ensures AtWord(Line(name, g1, key, g2, value), 0) && Line(name, g1, key, g2, value) != ""
    ensures Interpret(Line(name, g1, key, g2, value)) == Set(key, value)
  {
    hide WordsFrom, NextBlank, NextWord, Line, Behind, Limited, LimitText, Interpret, Parse, Lower, VerbOf, IsLim;
    var sv := Line(name, g1, key, g2, value);
    SetWords(name, g1, key, g2, value);
    WordsUnfold(sv, |name| + |g1| + |key| + |g2|);
    SetMeaning(sv);
  }

  lemma LineEnds(a: string, g1: string, b: string, g2: string, rest: string)
    requires a != "" && rest != ""
    ensures var s := Line(a, g1, b, g2, rest); s[0] == a[0] && s[|s| - 1] == rest[|rest| - 1]
  {
  }

  lemma SetMeaning(sv: string)
    requires sv != "" && AtWord(sv, 0)
    ensures var ws := WordsFrom(sv, 0);
            && ws != []
            && (VerbOf(Text(sv, ws[0])) == SetVerb && |ws| >= 3 ==> Interpret(sv) == Set(Text(sv, ws[1]), sv[ws[2].from..]))
            && (Interpret(sv).Set? ==> VerbOf(Text(sv, ws[0])) == SetVerb && |ws| >= 3)
  {
    WordsUnfold(sv, 0);
    hide WordsFrom, LimitOf, ParseLimit, VerbOf, Lower;
  }

  /** The first word and the blanks behind it, cut out of the line. */
  lemma CutWord(s: string, pos: nat)
    requires AtWord(s, pos) && pos < |s|
    ensures var m := NextBlank(s, pos); var n := NextWord(s, m);
            && pos < m <= n <= |s| && NoBlank(s[pos..m]) && AllBlank(s[m..n]) && AtWord(s, n)
            && (n < |s| ==> m < n)
  {
    var m := NextBlank(s, pos);
    hide NextBlank, NextWord;
  }

  lemma SetLineOf(sv: string, key: string, value: string) returns (name: string, g1: string, g2: string)
    requires sv != "" && AtWord(sv, 0) && Interpret(sv) == Set(key, value)
    ensures sv == Line(name, g1, key, g2, value) && VerbOf(name) == SetVerb && Separator(g1) && Separator(g2)
    ensures key != "" && NoBlank(key) && value != "" && !Blank(value[0])
  {
    hide WordsFrom, NextBlank, NextWord, Line, Behind, Limited, LimitText, Interpret, Parse, Lower, VerbOf, IsLim;
    SetMeaning(sv);
    WordsUnfold(sv, 0);
    CutWord(sv, 0);
    WordsEnd(sv);
    var a := NextBlank(sv, 0);
    var p := NextWord(sv, a);
    WordsUnfold(sv, p);
    CutWord(sv, p);
    var b := NextBlank(sv, p);
    var q := NextWord(sv, b);
    WordsUnfold(sv, q);
    CutWord(sv, q);
    CutLine(sv, a, p, b, q);
    return sv[..a], sv[a..p], sv[b..q];
  }

  lemma CutLine(s: string, a: nat, p: nat, b: nat, q: nat)
    requires a <= p <= b <= q < |s| && AtWord(s, q)
    ensures s == Line(s[..a], s[a..p], s[p..b], s[b..q], s[q..]) && !Blank(s[q..][0])
    ensures AllBlank(s[a..p]) && a < p ==> Separator(s[a..p])
    ensures AllBlank(s[b..q]) && b < q ==> Separator(s[b..q])
  {
  }

  lemma WordsEnd(s: string)
    ensures WordsFrom(s, |s|) == []
  {
  }

  /** A line is read as the `set` of a key and a value if and only if it is one printed with them. */
  lemma SetExact(command: string, key: string, value: string)
    ensures Parse(command) == Set(key, value)
       <==> exists lead, name, g1, g2, tail :: SetLine(command, lead, name, g1, key, g2, value, tail)
  {
    hide Parse, SetLine;
    if lead, name, g1, g2, tail :| SetLine(command, lead, name, g1, key, g2, value, tail) {
      SetRoundTrip(command, lead, name, g1, key, g2, value, tail);
    }
    if Parse(command) == Set(key, value) {
      var lead, sv, tail := Trimmed(command);
      var name, g1, g2 := SetLineOf(sv, key, value);
      SetLineIs(command, lead, name, g1, key, g2, value, tail);
    }
  }

  /** What trimming removes from a line that is not blank. */
  lemma Trimmed(command: string) returns (lead: string, sv: string, tail: string)
    requires Parse(command) != NoCommand
    ensures command == lead + sv + tail && AllBlank(lead) && AllNewLine(tail)
    ensures sv != "" && AtWord(sv, 0) && !NewLine(sv[|sv| - 1]) && Parse(command) == Interpret(sv)
  {
    hide Interpret;
    var start := NextWord(command, 0);
    sv := TrimEnd(command[start..]);
    TrimKeepsWord(command[start..]);
    lead, tail := command[..start], command[start..][|sv|..];
    hide TrimEnd, NextWord;
  }

  lemma SetLineIs(command: string, lead: string, name: string, g1: string, key: string, g2: string, value: string,
                  tail: string)
    requires VerbOf(name) == SetVerb && Separator(g1) && Separator(g2)
    requires key != "" && NoBlank(key) && value != "" && !Blank(value[0])
    requires var sv := Line(name, g1, key, g2, value);
             command == lead + sv + tail && AllBlank(lead) && AllNewLine(tail) && sv != "" && !NewLine(sv[|sv| - 1])
    ensures SetLine(command, lead, name, g1, key, g2, value, tail)
  {
    VerbIs(name);
    NameIsWord(name);
    LineEnds(name, g1, key, g2, value);
    hide Line, VerbOf, IsName;
  }

  // ------------------------------------------------------- pattern commands

  /** A line of three words and a rest. */
  function PatternLine(name: string, g1: string, mode: string, g2: string, pattern: string, g3: string, rest: string): string {
    Line(name, g1, mode, g2, Behind(pattern, g3, rest))
  }

  function Behind(w: string, gap: string, rest: string): string {
    w + gap + rest
  }

  predicate WordOk(w: string) {
    w != "" && NoBlank(w)
  }

  lemma HoldsTail(s: string, n: nat, w: string, gap: string, post: string)
    requires n <= |s| && s[n..] == Behind(w, gap, post)
    requires WordOk(w) && AllBlank(gap) && (post == "" || (gap != "" && !Blank(post[0])))
    ensures Holds(s, n, w, gap) && s[n + |w| + |gap|..] == post
  {
    assert s == s[..n] + w + gap + post;
    HoldsIn(s, s[..n], w, gap, post);
  }

  lemma BehindStarts(w: string, gap: string, rest: string)
    requires WordOk(w)
    ensures var s := Behind(w, gap, rest); s != "" && !Blank(s[0]) && |s| == |w| + |gap| + |rest|
  {
  }

  lemma PatternWords(name: string, g1: string, mode: string, g2: string, pattern: string, g3: string, rest: string)
    requires WordOk(name) && Separator(g1) && WordOk(mode) && Separator(g2) && WordOk(pattern)
    requires if rest == "" then AllBlank(g3) else Separator(g3) && !Blank(rest[0])
    ensures var sv := PatternLine(name, g1, mode, g2, pattern, g3, rest);
            var b := |name| + |g1|;
            var c := b + |mode| + |g2|;
            var d := c + |pattern| + |g3|;
            && sv != "" && |sv| == d + |rest| && AtWord(sv, 0) && AtWord(sv, d) && sv[d..] == rest
            && WordsFrom(sv, 0) == [Word(0, |name|), Word(b, b + |mode|), Word(c, c + |pattern|)] + WordsFrom(sv, d)
            && Text(sv, Word(0, |name|)) == name && Text(sv, Word(b, b + |mode|)) == mode
            && Text(sv, Word(c, c + |pattern|)) == pattern
  {
    var sv := PatternLine(name, g1, mode, g2, pattern, g3, rest);
    var b := |name| + |g1|;
    var c := b + |mode| + |g2|;
    hide WordsFrom, NextBlank, NextWord, Line, Behind, Limited, LimitText, Interpret, Parse, Lower, VerbOf, IsLim;
    BehindStarts(pattern, g3, rest);
    SetWords(name, g1, mode, g2, Behind(pattern, g3, rest));
    HoldsTail(sv, c, pattern, g3, rest);
    FirstWord(sv, c, pattern, g3);
  }

  lemma SetByMeaning(sv: string)
    requires sv != "" && AtWord(sv, 0)
    ensures var ws := WordsFrom(sv, 0);
            && ws != [] && (forall i, j :: 0 <= i < j < |ws| ==> ws[i].to < ws[j].from)
            && (VerbOf(Text(sv, ws[0])) == SetByVerb ==> Interpret(sv) == ReadSetBy(sv, ws, Texts(sv, ws)))
  {
    WordsUnfold(sv, 0);
    WordsAreRuns(sv, 0);
    hide WordsFrom, VerbOf, ReadSetBy, Texts;
  }

  lemma DelByMeaning(sv: string)
    requires sv != "" && AtWord(sv, 0)
    ensures var ws := WordsFrom(sv, 0);
            && ws != []
            && (VerbOf(Text(sv, ws[0])) == DelByVerb ==> Interpret(sv) == ReadDelBy(Texts(sv, ws)))
  {
    WordsUnfold(sv, 0);
    hide WordsFrom, VerbOf, ReadDelBy, Texts;
  }

  /** The words of a suffix are the words of the line from there on. */
  lemma {:induction false} WordsShift(s: string, n: nat, pos: nat)
    requires n <= |s| && AtWord(s[n..], pos)
    ensures AtWord(s, n + pos)
    ensures var ws, vs := WordsFrom(s, n + pos), WordsFrom(s[n..], pos);
            |ws| == |vs| && forall i :: 0 <= i < |ws| ==> ws[i] == Word(vs[i].from + n, vs[i].to + n)
    decreases |s| - pos
  {
    hide WordsFrom, NextBlank, NextWord, Line, Behind, Limited, LimitText, Interpret, Parse, Lower, VerbOf, IsLim;
    var t := s[n..];
    AtWordShift(s, n, pos);
    WordsEnd(s);
    WordsEnd(t);
    if pos < |t| {
      WordsUnfold(t, pos);
      WordsUnfold(s, n + pos);
      ShiftStep(s, n, pos);
      WordsShift(s, n, NextWord(t, NextBlank(t, pos)));
    }
  }

  lemma AtWordShift(s: string, n: nat, pos: nat)
    requires n <= |s|
    ensures AtWord(s[n..], pos) == AtWord(s, n + pos)
  {
  }

  lemma ShiftStep(s: string, n: nat, pos: nat)
    requires n <= |s| && AtWord(s[n..], pos) && n + pos < |s|
    ensures var t := s[n..]; var end := NextBlank(t, pos);
            NextBlank(s, n + pos) == n + end && NextWord(s, n + end) == n + NextWord(t, end)
  {
    hide NextBlank, NextWord;
    var t := s[n..];
    var end := NextBlank(t, pos);
    BlankIs(s, n + pos, n + end);
    WordIs(s, n + end, n + NextWord(t, end));
  }

  /** The value's last but one word reads `lim`, and there is a word before it. */
  predicate LimTail(value: string)
    requires AtWord(value, 0)
  {
    var ws := WordsFrom(value, 0);
    |ws| >= 3 && IsLim(Text(value, ws[|ws| - 2]))
  }

  lemma ReadSetByUnlimited(sv: string, ws: seq<Word>)
    requires |ws| >= 4 && forall i :: 0 <= i < |ws| ==> ws[i].from <= ws[i].to <= |sv|
    requires forall i, j :: 0 <= i < j < |ws| ==> ws[i].to < ws[j].from
    requires ws[|ws| - 1].from < |sv|
    ensures var n := |ws|; var limited := n >= 6 && IsLim(Text(sv, ws[n - 2]));
            var r := ReadSetBy(sv, ws, Texts(sv, ws));
            if limited then r.InvalidLimit? || (r.SetBy? && |r.value| < |sv| - ws[3].from)
            else r == SetBy(Lower(Text(sv, ws[1])), Text(sv, ws[2]), sv[ws[3].from..], NO_LIMIT)
  {
    hide Lower, ParseLimit, IsLim, Text, Texts;
    assert sv[ws[3].from..|sv|] == sv[ws[3].from..];
    if |ws| >= 6 {
      InOrder(ws, 3, |ws| - 3);
    }
  }

  /**
   * A `setby` printed without a limit is read back exactly when its value does not itself end in
   * a `lim` and one more word behind at least one other word.
   */
  lemma SetByInterpreted(name: string, g1: string, mode: string, g2: string, pattern: string, g3: string, value: string)
    requires WordOk(name) && VerbOf(name) == SetByVerb
    requires Separator(g1) && WordOk(mode) && Separator(g2) && WordOk(pattern) && Separator(g3)
    requires value != "" && !Blank(value[0])
    ensures var sv := PatternLine(name, g1, mode, g2, pattern, g3, value);
            && sv != "" && AtWord(sv, 0)
            && (Interpret(sv) == SetBy(Lower(mode), pattern, value, NO_LIMIT) <==> !LimTail(value))
  {
    hide *;
    PatternWords(name, g1, mode, g2, pattern, g3, value);
    var sv := PatternLine(name, g1, mode, g2, pattern, g3, value);
    var d := |sv| - |value|;
    var ws := WordsFrom(sv, 0);
    SetByMeaning(sv);
    AtWordShift(sv, d, 0);
    WordsUnfold(sv, d);
    LimTailAt(sv, d);
    ghost var tail := WordsFrom(sv, d);
    assert |ws| == 3 + |tail| && ws[3].from == d && ws[|ws| - 1] == tail[|tail| - 1];
    assert |tail| >= 2 ==> ws[|ws| - 2] == tail[|tail| - 2];
    ReadSetByUnlimited(sv, ws);
  }

  lemma {:induction false} LimTailAt(s: string, d: nat)
    requires d <= |s| && AtWord(s, d) && AtWord(s[d..], 0)
    ensures var ws := WordsFrom(s, d);
            LimTail(s[d..]) == (|ws| >= 3 && IsLim(Text(s, ws[|ws| - 2])))
  {
    hide WordsFrom, NextBlank, NextWord, Line, Behind, Limited, LimitText, Interpret, Parse, Lower, VerbOf, IsLim;
    var t := s[d..];
    WordsShift(s, d, 0);
    var vs, ws := WordsFrom(t, 0), WordsFrom(s, d);
    if |ws| >= 3 {
      TextShift(s, d, vs[|vs| - 2]);
    }
  }

  lemma TextShift(s: string, d: nat, w: Word)
    requires d <= |s| && w.from <= w.to <= |s| - d
    ensures Text(s[d..], w) == Text(s, Word(w.from + d, w.to + d))
  {
  }

  /** `value lim number`, with any blanks between. */
  function Limited(value: string, g4: string, lim: string, g5: string, number: string): string {
    value + g4 + (lim + g5 + number)
  }

  lemma LimitedWords(s: string, d: nat, value: string, g4: string, lim: string, g5: string, number: string)
    requires d <= |s| && s[d..] == Limited(value, g4, lim, g5, number)
    requires value != "" && !Blank(value[0]) && !Blank(value[|value| - 1])
    requires Separator(g4) && WordOk(lim) && Separator(g5) && WordOk(number)
    ensures AtWord(s, d)
    ensures var ws := WordsFrom(s, d); var n := |ws|; var m := d + |value|;
            && n >= 3 && m <= |s| && s[d..m] == value && ws[0].from == d && ws[n - 3].to == m
            && Text(s, ws[n - 2]) == lim && Text(s, ws[n - 1]) == number
  {
    var m := d + |value|;
    var p := m + |g4|;
    var t := s[d..];
    assert t == value + g4 + Behind(lim, g5, number);
    LimitedSlices(s, d, value, g4, Behind(lim, g5, number));
    BehindStarts(lim, g5, number);
    hide Behind, Limited;
    assert s[d] == value[0] && s[m - 1] == value[|value| - 1] && s[p] == s[p..][0];
    forall j | m <= j < p ensures Blank(s[j]) {
      assert s[j] == g4[j - m];
    }
    LimitedTail(s, d, m, p, lim, g5, number);
  }

  lemma LimitedSlices(s: string, d: nat, value: string, gap: string, rest: string)
    requires d <= |s| && s[d..] == value + gap + rest
    ensures var m := d + |value|; var p := m + |gap|;
            p <= |s| && s[d..m] == value && s[m..p] == gap && s[p..] == rest
    ensures forall j :: 0 <= j < |gap| ==> s[d + |value| + j] == gap[j]
    ensures forall j :: 0 <= j < |value| ==> s[d + j] == value[j]
  {
    var t := s[d..];
    var a, b := |value|, |value| + |gap|;
    assert t[..a] == value && t[a..b] == gap && t[b..] == rest;
    assert s[d..d + a] == t[..a];
    assert s[d + a..d + b] == t[a..b];
    assert s[d + b..] == t[b..];
    assert forall j :: 0 <= j < |t| ==> s[d + j] == t[j];
  }

  lemma LimitedTail(s: string, d: nat, m: nat, p: nat, lim: string, g5: string, number: string)
    requires AtWord(s, d) && d < m < p <= |s| && AtWord(s, p) && !Blank(s[m - 1]) && forall j :: m <= j < p ==> Blank(s[j])
    requires s[p..] == Behind(lim, g5, number) && WordOk(lim) && Separator(g5) && WordOk(number)
    ensures var ws := WordsFrom(s, d); var n := |ws|;
            && n >= 3 && ws[0].from == d && ws[n - 3].to == m
            && Text(s, ws[n - 2]) == lim && Text(s, ws[n - 1]) == number
  {
    hide WordsFrom, NextBlank, NextWord, Line, Behind, Limited, LimitText, Interpret, Parse, Lower, VerbOf, IsLim;
    WordsSplit(s, d, m, p);
    WordsUnfold(s, d);
    TwoWords(s, p, lim, g5, number);
  }

  lemma LastHolds(s: string, q: nat, w: string)
    requires q <= |s| && s[q..] == w && WordOk(w)
    ensures Holds(s, q, w, "") && q + |w| + |""| == |s|
  {
    assert s[q..|s|] == s[q..];
  }

  lemma ReadSetByLimited(sv: string, ws: seq<Word>)
    requires |ws| >= 6 && forall i :: 0 <= i < |ws| ==> ws[i].from <= ws[i].to <= |sv|
    requires forall i, j :: 0 <= i < j < |ws| ==> ws[i].to < ws[j].from
    requires IsLim(Text(sv, ws[|ws| - 2]))
    ensures ws[3].from <= ws[|ws| - 3].to
    ensures var n := |ws|; var limit := ParseLimit(Text(sv, ws[n - 1]));
            ReadSetBy(sv, ws, Texts(sv, ws))
            == if limit.None? then InvalidLimit
               else SetBy(Lower(Text(sv, ws[1])), Text(sv, ws[2]), sv[ws[3].from..ws[n - 3].to], limit.value)
  {
    hide Lower, ParseLimit, IsLim, Text, Texts;
    InOrder(ws, 3, |ws| - 3);
  }

  lemma InOrder(ws: seq<Word>, i: nat, j: nat)
    requires i <= j < |ws| && forall i :: 0 <= i < |ws| ==> ws[i].from <= ws[i].to
    requires forall i, j :: 0 <= i < j < |ws| ==> ws[i].to < ws[j].from
    ensures ws[i].from <= ws[j].to
    ensures j < |ws| - 1 ==> ws[j].to < ws[|ws| - 1].from
  {
  }

  lemma SetByLimitInterpreted(name: string, g1: string, mode: string, g2: string, pattern: string, g3: string,
                              value: string, g4: string, lim: string, g5: string, number: string)
    requires WordOk(name) && VerbOf(name) == SetByVerb
    requires Separator(g1) && WordOk(mode) && Separator(g2) && WordOk(pattern) && Separator(g3)
    requires value != "" && !Blank(value[0]) && !Blank(value[|value| - 1])
    requires Separator(g4) && WordOk(lim) && IsLim(lim) && Separator(g5) && WordOk(number)
    ensures var sv := PatternLine(name, g1, mode, g2, pattern, g3, Limited(value, g4, lim, g5, number));
            var limit := ParseLimit(number);
            && sv != "" && AtWord(sv, 0)
            && Interpret(sv) == if limit.None? then InvalidLimit else SetBy(Lower(mode), pattern, value, limit.value)
  {
    hide *;
    var rest := Limited(value, g4, lim, g5, number);
    LimitedEnds(value, g4, lim, g5, number);
    PatternWords(name, g1, mode, g2, pattern, g3, rest);
    var sv := PatternLine(name, g1, mode, g2, pattern, g3, rest);
    var d := |sv| - |rest|;
    var ws, tail := WordsFrom(sv, 0), WordsFrom(sv, d);
    SetByMeaning(sv);
    LimitedWords(sv, d, value, g4, lim, g5, number);
    assert |ws| == 3 + |tail| && ws[3] == tail[0] && ws[|ws| - 1] == tail[|tail| - 1];
    assert ws[|ws| - 2] == tail[|tail| - 2] && ws[|ws| - 3] == tail[|tail| - 3];
    ReadSetByLimited(sv, ws);
  }

  lemma LimitedEnds(value: string, g4: string, lim: string, g5: string, number: string)
    requires value != "" && WordOk(number)
    ensures var s := Limited(value, g4, lim, g5, number);
            s != "" && s[0] == value[0] && s[|s| - 1] == number[|number| - 1]
  {
  }

  lemma PatternLineEnds(name: string, g1: string, mode: string, g2: string, pattern: string, g3: string, rest: string)
    requires WordOk(name)
    ensures var s := PatternLine(name, g1, mode, g2, pattern, g3, rest);
            s != "" && !Blank(s[0]) && (rest != "" ==> s[|s| - 1] == rest[|rest| - 1])
  {
    var behind := Behind(pattern, g3, rest);
    if behind != "" {
      LineEnds(name, g1, mode, g2, behind);
    }
    hide Line;
  }

  /** `setby` without a limit: read back if and only if the value does not look like one with a limit. */
  lemma SetByRoundTrip(lead: string, name: string, g1: string, mode: string, g2: string, pattern: string, g3: string,
                       value: string, tail: string)
    requires AllBlank(lead) && AllNewLine(tail) && IsName(name, "setby", "sb") && ValueOk(value)
    requires Separator(g1) && WordOk(mode) && Separator(g2) && WordOk(pattern) && Separator(g3)
    ensures Parse(lead + PatternLine(name, g1, mode, g2, pattern, g3, value) + tail) == SetBy(Lower(mode), pattern, value, 0xFFFF_FFFF)
       <==> !LimTail(value)
  {
    hide PatternLine, Parse, Interpret, Lower, LimTail, VerbOf, IsName, SameButCase;
    VerbIs(name);
    NameIsWord(name);
    SetByInterpreted(name, g1, mode, g2, pattern, g3, value);
    PatternLineEnds(name, g1, mode, g2, pattern, g3, value);
    TrimIs(PatternLine(name, g1, mode, g2, pattern, g3, value), lead, tail);
  }

  /** `setby` with a limit, for every value that starts and ends with a non-blank. */
  lemma SetByLimitRoundTrip(lead: string, name: string, g1: string, mode: string, g2: string, pattern: string, g3: string,
                            value: string, g4: string, lim: string, g5: string, n: nat, tail: string)
    requires AllBlank(lead) && AllNewLine(tail) && IsName(name, "setby", "sb")
    requires Separator(g1) && WordOk(mode) && Separator(g2) && WordOk(pattern) && Separator(g3)
    requires value != "" && !Blank(value[0]) && !Blank(value[|value| - 1])
    requires Separator(g4) && SameButCase(lim, "lim") && Separator(g5)
    ensures Parse(lead + PatternLine(name, g1, mode, g2, pattern, g3, Limited(value, g4, lim, g5, Decimal.Print(n))) + tail)
         == if n < POW32 then SetBy(Lower(mode), pattern, value, n) else InvalidLimit
  {
    hide PatternLine, Limited, Parse, Interpret, Lower, VerbOf, IsLim, IsName, SameButCase;
    var number := Decimal.Print(n);
    var rest := Limited(value, g4, lim, g5, number);
    VerbIs(name);
    VerbIs(lim);
    NameIsWord(name);
    LimIsWord(lim);
    PrintedLimit(n);
    SetByLimitInterpreted(name, g1, mode, g2, pattern, g3, value, g4, lim, g5, number);
    LimitedEnds(value, g4, lim, g5, number);
    PatternLineEnds(name, g1, mode, g2, pattern, g3, rest);
    TrimIs(PatternLine(name, g1, mode, g2, pattern, g3, rest), lead, tail);
  }

  lemma LimIsWord(lim: string)
    requires IsLim(lim)
    ensures WordOk(lim)
  {
    forall i | 0 <= i < |lim| ensures !Blank(lim[i]) {
      assert Lower(lim)[i] == LowerChar(lim[i]);
    }
  }

  lemma PrintedLimit(n: nat)
    ensures var number := Decimal.Print(n);
            WordOk(number) && !NewLine(number[|number| - 1]) && ParseLimit(number) == if n < POW32 then Some(n) else None
  {
    Decimal.ReadPrinted(n, POW32);
    assert Decimal.AllDigits(Decimal.Print(n));
  }

  // --------------------------------------------------------- delby and getby

  /** The text behind the pattern of a `delby`. */
  function LimitText(limit: Option<nat>, lim: string, g: string): string {
    match limit
    case None => ""
    case Some(n) => lim + g + Decimal.Print(n)
  }

  lemma LimitTextWords(s: string, d: nat, limit: Option<nat>, lim: string, g: string)
    requires d <= |s| && s[d..] == LimitText(limit, lim, g) && IsLim(lim) && Separator(g)
    ensures AtWord(s, d)
    ensures var ws := WordsFrom(s, d);
            if limit.None? then ws == []
            else |ws| == 2 && Text(s, ws[0]) == lim && Text(s, ws[1]) == Decimal.Print(limit.value)
  {
    if limit.None? {
      assert d == |s|;
    } else {
      var number := Decimal.Print(limit.value);
      LimIsWord(lim);
      PrintedLimit(limit.value);
      assert s[d..] == Behind(lim, g, number);
      TwoWords(s, d, lim, g, number);
    }
  }

  lemma TwoWords(s: string, p: nat, a: string, gap: string, b: string)
    requires p <= |s| && s[p..] == Behind(a, gap, b) && WordOk(a) && Separator(gap) && WordOk(b)
    ensures AtWord(s, p)
    ensures var ws := WordsFrom(s, p); |ws| == 2 && ws[0].from == p && Text(s, ws[0]) == a && Text(s, ws[1]) == b
  {
    hide WordsFrom, NextBlank, NextWord, Line, Behind, Limited, LimitText, Interpret, Parse, Lower, VerbOf, IsLim;
    HoldsTail(s, p, a, gap, b);
    FirstWord(s, p, a, gap);
    var q := p + |a| + |gap|;
    LastHolds(s, q, b);
    FirstWord(s, q, b, "");
    WordsEnd(s);
  }

  lemma LimitOfWords(words: seq<string>)
    requires |words| == 3 || (|words| == 5 && IsLim(words[3]))
    ensures LimitOf(words, |words|) == if |words| == 3 then Some(NO_LIMIT) else ParseLimit(words[4])
  {
    hide IsLim, ParseLimit;
  }

  /** `delby` with and without a limit. */
  lemma DelByRoundTrip(lead: string, name: string, g1: string, mode: string, g2: string, pattern: string, g3: string,
                       limit: Option<nat>, lim: string, g4: string, tail: string)
    requires AllBlank(lead) && AllNewLine(tail) && IsName(name, "delby", "db")
    requires Separator(g1) && WordOk(mode) && Separator(g2) && WordOk(pattern)
    requires SameButCase(lim, "lim") && Separator(g4) && (if limit.None? then g3 == "" else Separator(g3))
    ensures Parse(lead + PatternLine(name, g1, mode, g2, pattern, g3, LimitText(limit, lim, g4)) + tail)
         == if limit.None? then DelBy(Lower(mode), pattern, 0xFFFF_FFFF)
            else if limit.value < POW32 then DelBy(Lower(mode), pattern, limit.value)
            else InvalidLimit
  {
    hide PatternLine, LimitText, Parse, Interpret, Lower, VerbOf, IsLim, IsName, SameButCase;
    var rest := LimitText(limit, lim, g4);
    var sv := PatternLine(name, g1, mode, g2, pattern, g3, rest);
    VerbIs(name);
    VerbIs(lim);
    NameIsWord(name);
    DelByInterpreted(name, g1, mode, g2, pattern, g3, limit, lim, g4);
    DelByEnds(name, g1, mode, g2, pattern, g3, limit, lim, g4);
    PatternLineEnds(name, g1, mode, g2, pattern, g3, rest);
    TrimIs(sv, lead, tail);
  }

  lemma DelByEnds(name: string, g1: string, mode: string, g2: string, pattern: string, g3: string,
                  limit: Option<nat>, lim: string, g4: string)
    requires WordOk(name) && WordOk(pattern) && (limit.None? ==> g3 == "")
    ensures var s := PatternLine(name, g1, mode, g2, pattern, g3, LimitText(limit, lim, g4)); s != "" && !NewLine(s[|s| - 1])
  {
    var rest := LimitText(limit, lim, g4);
    PatternLineEnds(name, g1, mode, g2, pattern, g3, rest);
    if limit.Some? {
      PrintedLimit(limit.value);
      assert rest[|rest| - 1] == Decimal.Print(limit.value)[|Decimal.Print(limit.value)| - 1];
    } else {
      assert Behind(pattern, g3, rest) == pattern;
      LineEnds(name, g1, mode, g2, pattern);
    }
  }

  lemma DelByInterpreted(name: string, g1: string, mode: string, g2: string, pattern: string, g3: string,
                         limit: Option<nat>, lim: string, g4: string)
    requires WordOk(name) && VerbOf(name) == DelByVerb
    requires Separator(g1) && WordOk(mode) && Separator(g2) && WordOk(pattern)
    requires IsLim(lim) && Separator(g4) && (if limit.None? then g3 == "" else Separator(g3))
    ensures var sv := PatternLine(name, g1, mode, g2, pattern, g3, LimitText(limit, lim, g4));
            && sv != "" && AtWord(sv, 0)
            && Interpret(sv) == if limit.None? then DelBy(Lower(mode), pattern, NO_LIMIT)
                                else if limit.value < POW32 then DelBy(Lower(mode), pattern, limit.value)
                                else InvalidLimit
  {
    var rest := LimitText(limit, lim, g4);
    hide WordsFrom, NextBlank, NextWord, Line, Behind, Limited, LimitText, Interpret, Parse, Lower, VerbOf, IsLim,
      NoBlank, PatternLine, Text, LimitOf;
    LimitTextStarts(limit, lim, g4);
    PatternWords(name, g1, mode, g2, pattern, g3, rest);
    var sv := PatternLine(name, g1, mode, g2, pattern, g3, rest);
    var d := |sv| - |rest|;
    DelByMeaning(sv);
    LimitTextWords(sv, d, limit, lim, g4);
    var ws, behind := WordsFrom(sv, 0), WordsFrom(sv, d);
    assert |ws| == 3 + |behind| && (|behind| == 2 ==> ws[3] == behind[0] && ws[4] == behind[1]);
    LimitOfWords(Texts(sv, ws));
    if limit.Some? {
      PrintedLimit(limit.value);
    }
  }

  lemma LimitTextStarts(limit: Option<nat>, lim: string, g: string)
    requires IsLim(lim)
    ensures if limit.None? then LimitText(limit, lim, g) == "" else LimitText(limit, lim, g) != "" && !Blank(LimitText(limit, lim, g)[0])
  {
    LimIsWord(lim);
  }

}
