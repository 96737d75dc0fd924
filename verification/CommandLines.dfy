/**
 * What `execCmd` makes of every command line, stated without its scanning: by the words the line
 * spells. Each request and each refusal has its exact condition.
 */
module CommandLines {
  import opened Base
  import opened Bytes
  import opened Tokenizer
  import Decimal

  predicate Blanks(s: string) {
    forall c :: c in s ==> c in " \t\r\n"
  }

  /** The line begins with the word, apart from blanks; `rest` is what stands behind it. */
  predicate Begins(s: string, lead: string, word: string, rest: string) {
    && s == lead + word + rest && Blanks(lead) && word != "" && (forall c :: c in word ==> c !in " \t\r\n")
    && (rest == "" || rest[0] in " \t\r\n")
  }

  /** The line consists of these words, and of blanks around them. */
  ghost predicate Spells(s: string, words: seq<string>)
    decreases |words|
  {
    if words == [] then Blanks(s)
    else exists lead, rest :: Begins(s, lead, words[0], rest) && Spells(rest, words[1..])
  }

  // ------------------------------------------------- every line spells one list

  lemma CharsAre(c: char)
    ensures Blank(c) <==> c in " \t\r\n"
    ensures NewLine(c) <==> c in "\r\n"
  {
  }

  lemma BlanksAre(s: string)
    ensures Blanks(s) <==> AllBlank(s)
    ensures (forall c :: c in s ==> c !in " \t\r\n") <==> NoBlank(s)
  {
    forall i | 0 <= i < |s|
      ensures Blank(s[i]) <==> s[i] in " \t\r\n"
      ensures s[i] in s
    {
      CharsAre(s[i]);
    }
  }

  /** Where the parts lie. */
  lemma BeginsAt(s: string, lead: string, word: string, rest: string)
    requires Begins(s, lead, word, rest)
    ensures var a, b := |lead|, |lead| + |word|;
            && a < b <= |s| && lead == s[..a] && word == s[a..b] && rest == s[b..]
            && (forall i :: 0 <= i < a ==> Blank(s[i])) && (forall i :: a <= i < b ==> !Blank(s[i])) && (b < |s| ==> Blank(s[b]))
  {
    BlanksAre(lead);
    BlanksAre(word);
    if rest != "" {
      CharsAre(rest[0]);
    }
    assert forall i :: 0 <= i < |lead| ==> s[i] == lead[i];
    assert forall i :: |lead| <= i < |lead| + |word| ==> s[i] == word[i - |lead|];
  }

  lemma BeginsOnce(s: string, lead: string, word: string, rest: string, lead': string, word': string, rest': string)
    requires Begins(s, lead, word, rest) && Begins(s, lead', word', rest')
    ensures lead == lead' && word == word' && rest == rest'
  {
    BeginsAt(s, lead, word, rest);
    BeginsAt(s, lead', word', rest');
    hide Begins;
    assert !Blank(s[|lead|]) && !Blank(s[|lead'|]);
  }

  lemma {:induction false} SpellsOnce(s: string, a: seq<string>, b: seq<string>)
    requires Spells(s, a) && Spells(s, b)
    ensures a == b
    decreases |a|
  {
    if a == [] || b == [] {
      NotBoth(s, if a == [] then b else a);
    } else {
      var lead, rest :| Begins(s, lead, a[0], rest) && Spells(rest, a[1..]);
      var lead', rest' :| Begins(s, lead', b[0], rest') && Spells(rest', b[1..]);
      BeginsOnce(s, lead, a[0], rest, lead', b[0], rest');
      SpellsOnce(rest, a[1..], b[1..]);
      assert a == [a[0]] + a[1..] && b == [b[0]] + b[1..];
    }
  }

  lemma NotBoth(s: string, words: seq<string>)
    requires Spells(s, words) && Blanks(s)
    ensures words == []
  {
    if words != [] {
      NotBlank(s, words);
    }
  }

  lemma NotBlank(s: string, words: seq<string>)
    requires Spells(s, words) && words != []
    ensures !Blanks(s)
  {
    var lead, rest :| Begins(s, lead, words[0], rest) && Spells(rest, words[1..]);
    BeginsAt(s, lead, words[0], rest);
    BlanksAre(s);
    assert !Blank(s[|lead|]);
    hide Begins, Spells;
  }

  // ----------------------------------------------------- what the scan finds

  /** The words the scan finds from a place on are those the rest of the line spells. */
  lemma {:induction false} ScanSpells(s: string, pos: nat)
    requires AtWord(s, pos)
    ensures Spells(s[pos..], Texts(s, WordsFrom(s, pos)))
    decreases |s| - pos
  {
    if pos == |s| {
      NothingSpelled(s);
    } else {
      WordsUnfold(s, pos);
      hide *;
      ScanSpells(s, NextWord(s, NextBlank(s, pos)));
      OneSpelled(s, pos);
    }
  }

  lemma OneSpelled(s: string, pos: nat)
    requires AtWord(s, pos) && pos < |s|
    requires var next := NextWord(s, NextBlank(s, pos)); AtWord(s, next) && Spells(s[next..], Texts(s, WordsFrom(s, next)))
    ensures Spells(s[pos..], Texts(s, WordsFrom(s, pos)))
  {
    var end := NextBlank(s, pos);
    var next := NextWord(s, end);
    WordsUnfold(s, pos);
    FirstBegins(s, pos, end, next);
    hide *;
    FirstSpelled(s, pos, end, next, WordsFrom(s, next));
  }

  lemma FirstSpelled(s: string, pos: nat, end: nat, next: nat, ws: seq<Word>)
    requires pos <= end <= next <= |s| && forall i :: 0 <= i < |ws| ==> ws[i].from <= ws[i].to <= |s|
    requires Begins(s[pos..], "", s[pos..end], s[end..]) && AllBlank(s[end..next]) && Spells(s[next..], Texts(s, ws))
    ensures Spells(s[pos..], Texts(s, [Word(pos, end)] + ws))
  {
    hide *;
    SpellsBehind(s[end..next], s[next..], Texts(s, ws));
    assert s[end..] == s[end..next] + s[next..];
    SpellsFirst(s[pos..], s[pos..end], s[end..], Texts(s, ws));
    TextsFirst(s, Word(pos, end), ws);
  }

  lemma NothingSpelled(s: string)
    ensures AtWord(s, |s|) && Spells(s[|s|..], Texts(s, WordsFrom(s, |s|)))
  {
    WordsEnd(s);
  }

  lemma TextsFirst(s: string, w: Word, ws: seq<Word>)
    requires w.from <= w.to <= |s| && forall i :: 0 <= i < |ws| ==> ws[i].from <= ws[i].to <= |s|
    ensures Texts(s, [w] + ws) == [s[w.from..w.to]] + Texts(s, ws)
  {
  }

  lemma SpellsFirst(s: string, word: string, rest: string, words: seq<string>)
    requires Begins(s, "", word, rest) && Spells(rest, words)
    ensures Spells(s, [word] + words)
  {
    assert ([word] + words)[1..] == words && ([word] + words)[0] == word;
    hide Begins;
  }

  lemma FirstBegins(s: string, pos: nat, end: nat, next: nat)
    requires pos < end <= next <= |s| && (forall j :: pos <= j < end ==> !Blank(s[j])) && (end < |s| ==> Blank(s[end]))
    requires forall j :: end <= j < next ==> Blank(s[j])
    ensures Begins(s[pos..], "", s[pos..end], s[end..]) && AllBlank(s[end..next])
  {
    BlanksAre(s[pos..end]);
    assert s[pos..] == "" + s[pos..end] + s[end..];
    if end < |s| {
      CharsAre(s[end]);
    }
  }

  /** Blanks in front change nothing. */
  lemma SpellsBehind(lead: string, s: string, words: seq<string>)
    requires Spells(s, words) && AllBlank(lead)
    ensures Spells(lead + s, words)
  {
    BlanksAre(lead);
    if words != [] {
      var lead', rest :| Begins(s, lead', words[0], rest) && Spells(rest, words[1..]);
      assert lead + s == (lead + lead') + words[0] + rest;
      assert Begins(lead + s, lead + lead', words[0], rest);
    }
  }

  /** Nor do blanks at the end. */
  lemma {:induction false} SpellsBefore(s: string, words: seq<string>, tail: string)
    requires Spells(s, words) && AllBlank(tail)
    ensures Spells(s + tail, words)
    decreases |words|
  {
    BlanksAre(tail);
    if words != [] {
      var lead, rest :| Begins(s, lead, words[0], rest) && Spells(rest, words[1..]);
      SpellsBefore(rest, words[1..], tail);
      assert s + tail == lead + words[0] + (rest + tail);
      assert rest == "" && tail != "" ==> (rest + tail)[0] == tail[0] && tail[0] in tail;
      assert Begins(s + tail, lead, words[0], rest + tail);
    }
  }

  lemma NewLinesBlank(s: string)
    requires AllNewLine(s)
    ensures AllBlank(s)
  {
  }

  /** A line that is not blank: its words are what the scan finds in the trimmed line. */
  lemma Scanned(command: string, words: seq<string>) returns (sv: string)
    requires Spells(command, words) && Parse(command) != NoCommand
    ensures sv != "" && AtWord(sv, 0) && Parse(command) == Interpret(sv) && words == Texts(sv, WordsFrom(sv, 0)) && words != []
  {
    hide Parse, Interpret, Spells, WordsFrom, Texts, NextBlank, NextWord;
    var lead, tail;
    lead, sv, tail := Trimmed(command);
    NewLinesBlank(tail);
    ScanSpells(sv, 0);
    assert sv[0..] == sv;
    var found := Texts(sv, WordsFrom(sv, 0));
    SpellsBehind(lead, sv, found);
    SpellsBefore(lead + sv, found, tail);
    SpellsOnce(command, words, found);
    WordsUnfold(sv, 0);
  }

  /** Every line spells some list of words, only a blank one the empty list. */
  lemma SpellsSome(command: string) returns (words: seq<string>)
    ensures Spells(command, words)
    ensures words == [] <==> Parse(command) == NoCommand
  {
    if Parse(command) == NoCommand {
      words := [];
      BlankLine(command);
    } else {
      hide Parse, Interpret, Spells, WordsFrom, Texts, NextBlank, NextWord;
      var lead, sv, tail := Trimmed(command);
      NewLinesBlank(tail);
      ScanSpells(sv, 0);
      assert sv[0..] == sv;
      words := Texts(sv, WordsFrom(sv, 0));
      SpellsBehind(lead, sv, words);
      SpellsBefore(lead + sv, words, tail);
      WordsUnfold(sv, 0);
    }
  }

  lemma NeverNoCommand(sv: string)
    requires sv != "" && AtWord(sv, 0)
    ensures Interpret(sv) != NoCommand
  {
    hide VerbOf, WordsFrom, LimitOf, ParseLimit, Lower;
    WordsUnfold(sv, 0);
  }

  lemma BlankLine(command: string)
    requires Parse(command) == NoCommand
    ensures Blanks(command)
  {
    var start := NextWord(command, 0);
    if start < |command| {
      TrimKeepsWord(command[start..]);
      NeverNoCommand(TrimEnd(command[start..]));
    }
    BlanksAre(command);
    hide Interpret;
  }

  // --------------------------------------------------------- the requests

  /** The text is a number, and this one. */
  predicate IsNumber(word: string, n: nat) {
    word != "" && Decimal.AllDigits(word) && Decimal.ValueOf(word) == n
  }

  /** The limit option of `getby` and `delby`: the last `lim` behind the pattern that has a word behind it. */
  ghost predicate LastLimAt(words: seq<string>, i: nat) {
    && 3 <= i && i + 1 < |words| && SameButCase(words[i], "lim")
    && forall j :: i < j < |words| - 1 ==> !SameButCase(words[j], "lim")
  }

  ghost predicate LimitGiven(words: seq<string>, limit: nat) {
    if exists i :: LastLimAt(words, i) then limit < 0x1_0000_0000 && exists i :: LastLimAt(words, i) && IsNumber(words[i + 1], limit)
    else limit == 0xFFFF_FFFF
  }

  lemma NumberRead(word: string, limit: nat)
    ensures ParseLimit(word) == Some(limit) <==> IsNumber(word, limit) && limit < 0x1_0000_0000
  {
    if word != "" && Decimal.AllDigits(word) {
      Decimal.PrefixAll(word, "");
      assert word + "" == word;
    }
  }

  lemma LimitRead(words: seq<string>, limit: nat)
    requires |words| >= 3
    ensures LimitOf(words, |words|) == Some(limit) <==> LimitGiven(words, limit)
  {
    hide SameButCase, IsLim, ParseLimit, IsNumber;
    forall i | 0 <= i < |words|
      ensures IsLim(words[i]) <==> SameButCase(words[i], "lim")
    {
      VerbIs(words[i]);
    }
    var last := LastLim(words, |words|);
    if last.Some? {
      assert LastLimAt(words, last.value);
      NumberRead(words[last.value + 1], limit);
      assert forall i :: LastLimAt(words, i) ==> i == last.value;
    } else {
      assert forall i :: !LastLimAt(words, i);
    }
  }

  /** What the six commands make of their words, apart from the values of `set` and `setby`. */
  lemma Meaning(sv: string)
    requires sv != "" && AtWord(sv, 0)
    ensures var ws := WordsFrom(sv, 0); var words := Texts(sv, ws);
            && words != [] && (forall i, j :: 0 <= i < j < |ws| ==> ws[i].to <= ws[j].from)
            && match VerbOf(words[0])
               case GetVerb => Interpret(sv) == if |words| < 2 then MissingKey else Get(words[1])
               case DelVerb => Interpret(sv) == if |words| < 2 then MissingKey else Del(words[1])
               case GetByVerb => Interpret(sv) == ReadGetBy(words)
               case DelByVerb => Interpret(sv) == ReadDelBy(words)
               case SetVerb => Interpret(sv) == ReadSet(sv, ws, words)
               case SetByVerb => Interpret(sv) == ReadSetBy(sv, ws, words)
               case OtherVerb => Interpret(sv) == Other(words[0])
  {
    WordsUnfold(sv, 0);
    WordsAreRuns(sv, 0);
    hide WordsFrom, VerbOf, ReadGetBy, ReadDelBy, ReadSet, ReadSetBy, Texts;
  }

  ghost predicate IsWords(sv: string, words: seq<string>) {
    sv != "" && AtWord(sv, 0) && words != [] && words == Texts(sv, WordsFrom(sv, 0))
  }

  lemma KeyKinds(sv: string, words: seq<string>)
    requires IsWords(sv, words)
    ensures var verb, r, n := VerbOf(words[0]), Interpret(sv), |words|;
            && (r.Get? <==> verb == GetVerb && n >= 2) && (r.Get? ==> r.key == words[1])
            && (r.Del? <==> verb == DelVerb && n >= 2) && (r.Del? ==> r.key == words[1])
            && (r.Other? <==> verb == OtherVerb) && (r.Other? ==> r.name == words[0])
            && (r == MissingKey <==> n == 1 && (verb == GetVerb || verb == SetVerb || verb == DelVerb))
            && (r == MissingValue <==> (verb == SetVerb && n == 2) || (verb == SetByVerb && n < 4))
            && r != NoCommand
  {
    Meaning(sv);
    hide WordsFrom, VerbOf, LimitOf, ParseLimit, IsLim, Lower, Interpret, Texts;
  }

  lemma PatternKinds(sv: string, words: seq<string>)
    requires IsWords(sv, words)
    ensures var verb, r, n := VerbOf(words[0]), Interpret(sv), |words|;
            && (r.GetBy? <==> verb == GetByVerb && n >= 3 && LimitOf(words, n).Some?)
            && (r.GetBy? ==> r == GetBy(Lower(words[1]), words[2], LimitOf(words, n).value))
            && (r.DelBy? <==> verb == DelByVerb && n >= 3 && LimitOf(words, n).Some?)
            && (r.DelBy? ==> r == DelBy(Lower(words[1]), words[2], LimitOf(words, n).value))
  {
    Meaning(sv);
    hide WordsFrom, VerbOf, LimitOf, ParseLimit, IsLim, Lower, Interpret, Texts;
  }

  lemma SetByKinds(sv: string, ws: seq<Word>, words: seq<string>)
    requires |words| == |ws| && (forall i :: 0 <= i < |ws| ==> ws[i].from <= ws[i].to <= |sv|)
    requires forall i, j :: 0 <= i < j < |ws| ==> ws[i].to <= ws[j].from
    ensures var r, n := ReadSetBy(sv, ws, words), |words|;
            && (r.SetBy? || r == MissingValue || r == InvalidLimit)
            && (r == InvalidLimit <==> n >= 6 && IsLim(words[n - 2]) && ParseLimit(words[n - 1]).None?)
  {
    hide ParseLimit, IsLim, Lower;
  }

  lemma RefusalKinds(sv: string, words: seq<string>)
    requires IsWords(sv, words)
    ensures var verb, r, n := VerbOf(words[0]), Interpret(sv), |words|;
            && (r == MissingArguments <==> verb == GetByVerb && n < 3)
            && (r == MissingPattern <==> verb == DelByVerb && n < 3)
            && (r == InvalidLimit <==>
                 || ((verb == GetByVerb || verb == DelByVerb) && n >= 3 && LimitOf(words, n).None?)
                 || (verb == SetByVerb && n >= 6 && IsLim(words[n - 2]) && ParseLimit(words[n - 1]).None?))
  {
    hide WordsFrom, VerbOf, LimitOf, ParseLimit, IsLim, Lower, Interpret, Texts, ReadSetBy, ReadSet, ReadGetBy, ReadDelBy, Text, Blank;
    Meaning(sv);
    SetByKinds(sv, WordsFrom(sv, 0), words);
    SetKinds(sv, WordsFrom(sv, 0), words);
    LimitedKinds(words);
  }

  lemma SetKinds(sv: string, ws: seq<Word>, words: seq<string>)
    requires |words| == |ws| && (forall i :: 0 <= i < |ws| ==> ws[i].from <= ws[i].to <= |sv|)
    ensures var r := ReadSet(sv, ws, words); r.Set? || r == MissingKey || r == MissingValue
  {
  }

  lemma LimitedKinds(words: seq<string>)
    ensures var r, n := ReadGetBy(words), |words|;
            && (r.GetBy? || r == MissingArguments || r == InvalidLimit)
            && (r == MissingArguments <==> n < 3) && (r == InvalidLimit <==> n >= 3 && LimitOf(words, n).None?)
    ensures var r, n := ReadDelBy(words), |words|;
            && (r.DelBy? || r == MissingPattern || r == InvalidLimit)
            && (r == MissingPattern <==> n < 3) && (r == InvalidLimit <==> n >= 3 && LimitOf(words, n).None?)
  {
    hide LimitOf, Lower;
  }

  // ------------------------------------------------------------- exactly when

  /** What a line with these words is read as. */
  lemma KeyRead(command: string, words: seq<string>)
    requires Spells(command, words)
    ensures var r, n := Parse(command), |words|;
            && (r == NoCommand <==> n == 0)
            && (n == 0 ==> !r.Get? && !r.Del?)
            && (n > 0 ==>
                 var name := words[0];
                 && (r.Get? <==> IsName(name, "get", "g") && n >= 2) && (r.Get? ==> r.key == words[1])
                 && (r.Del? <==> IsName(name, "del", "d") && n >= 2) && (r.Del? ==> r.key == words[1]))
  {
    hide Parse, Spells, IsName, VerbOf, WordsFrom, Texts, Interpret;
    if Parse(command) == NoCommand {
      BlankLine(command);
      NotBoth(command, words);
    } else {
      var sv := Scanned(command, words);
      KeyKinds(sv, words);
      VerbIs(words[0]);
    }
  }

  /** A line is read as the `get` of a key if and only if its first word is that name and its second one the key. */
  lemma {:induction false} GetExact(command: string, key: string)
    ensures Parse(command) == Get(key)
       <==> exists words :: Spells(command, words) && |words| >= 2 && IsName(words[0], "get", "g") && words[1] == key
  {
    hide *;
    var some := SpellsSome(command);
    KeyRead(command, some);
    forall words | Spells(command, words)
      ensures words == some
    {
      SpellsOnce(command, words, some);
    }
  }

  lemma {:induction false} DelExact(command: string, key: string)
    ensures Parse(command) == Del(key)
       <==> exists words :: Spells(command, words) && |words| >= 2 && IsName(words[0], "del", "d") && words[1] == key
  {
    hide *;
    var some := SpellsSome(command);
    KeyRead(command, some);
    forall words | Spells(command, words)
      ensures words == some
    {
      SpellsOnce(command, words, some);
    }
  }

  /** The words of a pattern command: name, mode, pattern, and perhaps a limit. */
  ghost predicate PatternWords(words: seq<string>, long: string, short: string, mode: string, pattern: string, limit: nat) {
    |words| >= 3 && IsName(words[0], long, short) && mode == Lower(words[1]) && pattern == words[2] && LimitGiven(words, limit)
  }

  lemma PatternRead(command: string, words: seq<string>, mode: string, pattern: string, limit: nat)
    requires Spells(command, words)
    ensures Parse(command) == GetBy(mode, pattern, limit) <==> PatternWords(words, "getby", "gb", mode, pattern, limit)
    ensures Parse(command) == DelBy(mode, pattern, limit) <==> PatternWords(words, "delby", "db", mode, pattern, limit)
  {
    hide Parse, Spells, IsName, VerbOf, WordsFrom, Texts, Interpret, Lower, LimitOf, LimitGiven;
    if Parse(command) == NoCommand {
      BlankLine(command);
      NotBoth(command, words);
    } else {
      var sv := Scanned(command, words);
      PatternKinds(sv, words);
      VerbIs(words[0]);
      if |words| >= 3 {
        LimitRead(words, limit);
      }
    }
  }

  /** `getby`, with and without a limit, whatever else stands behind the pattern. */
  lemma {:induction false} GetByExact(command: string, mode: string, pattern: string, limit: nat)
    ensures Parse(command) == GetBy(mode, pattern, limit)
       <==> exists words :: Spells(command, words) && PatternWords(words, "getby", "gb", mode, pattern, limit)
  {
    hide *;
    var some := SpellsSome(command);
    PatternRead(command, some, mode, pattern, limit);
    forall words | Spells(command, words)
      ensures words == some
    {
      SpellsOnce(command, words, some);
    }
  }

  lemma {:induction false} DelByExact(command: string, mode: string, pattern: string, limit: nat)
    ensures Parse(command) == DelBy(mode, pattern, limit)
       <==> exists words :: Spells(command, words) && PatternWords(words, "delby", "db", mode, pattern, limit)
  {
    hide *;
    var some := SpellsSome(command);
    PatternRead(command, some, mode, pattern, limit);
    forall words | Spells(command, words)
      ensures words == some
    {
      SpellsOnce(command, words, some);
    }
  }

  /** Exactly when a line is refused, and why; and when it is none of the six commands. */
  lemma {:induction false} RefusedExactly(command: string, words: seq<string>)
    requires Spells(command, words) && words != []
    ensures var r, n, name, last := Parse(command), |words|, words[0], words[|words| - 1];
            && (r == MissingKey <==> n == 1 && (IsName(name, "get", "g") || IsName(name, "set", "s") || IsName(name, "del", "d")))
            && (r == MissingValue <==> (IsName(name, "set", "s") && n == 2) || (IsName(name, "setby", "sb") && n < 4))
            && (r == MissingArguments <==> IsName(name, "getby", "gb") && n < 3)
            && (r == MissingPattern <==> IsName(name, "delby", "db") && n < 3)
            && (r == InvalidLimit <==>
                 || ((IsName(name, "getby", "gb") || IsName(name, "delby", "db")) && n >= 3 && forall limit: nat :: !LimitGiven(words, limit))
                 || (IsName(name, "setby", "sb") && n >= 6 && SameButCase(words[n - 2], "lim")
                     && forall limit: nat :: IsNumber(last, limit) ==> limit >= 0x1_0000_0000))
            && (r.Other? <==>
                 && !IsName(name, "get", "g") && !IsName(name, "set", "s") && !IsName(name, "del", "d")
                 && !IsName(name, "getby", "gb") && !IsName(name, "setby", "sb") && !IsName(name, "delby", "db"))
            && (r.Other? ==> r.name == name)
  {
    hide Parse, Spells, IsName, VerbOf, WordsFrom, Texts, Interpret, Lower, LimitOf, LimitGiven, IsNumber, IsLim, SameButCase, ParseLimit;
    if Parse(command) == NoCommand {
      BlankLine(command);
      NotBoth(command, words);
    } else {
      var sv := Scanned(command, words);
      KeyKinds(sv, words);
      RefusalKinds(sv, words);
      VerbIs(words[0]);
      NoLimitGiven(words);
      if |words| >= 2 {
        VerbIs(words[|words| - 2]);
      }
      NoNumber(words[|words| - 1]);
    }
  }

  lemma NoNumber(word: string)
    ensures ParseLimit(word).None? <==> forall limit: nat :: IsNumber(word, limit) ==> limit >= 0x1_0000_0000
  {
    hide ParseLimit, IsNumber;
    forall limit: nat
      ensures ParseLimit(word) == Some(limit) <==> IsNumber(word, limit) && limit < 0x1_0000_0000
    {
      NumberRead(word, limit);
    }
    if ParseLimit(word).Some? {
      assert IsNumber(word, ParseLimit(word).value);
    }
  }

  lemma NoLimitGiven(words: seq<string>)
    ensures |words| >= 3 ==> (LimitOf(words, |words|).None? <==> forall limit: nat :: !LimitGiven(words, limit))
  {
    hide LimitOf, LimitGiven;
    if |words| >= 3 {
      forall limit: nat
        ensures LimitOf(words, |words|) == Some(limit) <==> LimitGiven(words, limit)
      {
        LimitRead(words, limit);
      }
      if LimitOf(words, |words|).Some? {
        assert LimitGiven(words, LimitOf(words, |words|).value);
      }
    }
  }

  /** Decimal notation. */
  lemma NumbersAreDecimal(digits: string, c: char)
    requires Decimal.AllDigits(digits) && c in "0123456789"
    ensures IsNumber(digits + [c], 10 * Decimal.ValueOf(digits) + (c as int - '0' as int)) && Decimal.ValueOf("") == 0
  {
    assert (digits + [c])[..|digits|] == digits;
  }
}
