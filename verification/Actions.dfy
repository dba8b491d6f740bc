/** Device actions: splitting a command line into arguments, the check for a missing
    address, and quoting the result for a shell script. */
module Actions {
  import opened Basics
  import opened Placeholders

  // ----- splitting a command line -----

  /** `char::is_whitespace`: the Unicode property White_Space. */
  predicate IsWhitespace(c: char) {
    var n := c as int;
    || 0x9 <= n <= 0xD || n in {0x20, 0x85, 0xA0, 0x1680, 0x2028, 0x2029, 0x202F, 0x205F, 0x3000}
    || 0x2000 <= n <= 0x200A
  }

  /** The rest of the word `s` starts in the middle of, without its quotes, and what
      follows it. A word ends at whitespace outside quotes. */
  function Word(s: string, quoted: bool): (w: (string, string))
    ensures |w.1| <= |s|
    ensures s != "" && (quoted || !IsWhitespace(s[0])) ==> |w.1| < |s|
  {
    if s == "" then ("", "")
    else if s[0] == '"' then Word(s[1..], !quoted)
    else if IsWhitespace(s[0]) && !quoted then ("", s)
    else var w := Word(s[1..], quoted); ([s[0]] + w.0, w.1)
  }

  /** The words of a command line. */
  function Words(s: string): seq<string>
    decreases |s|
  {
    if s == "" then []
    else if IsWhitespace(s[0]) then Words(s[1..])
    else var w := Word(s, false); [w.0] + Words(w.1)
  }

  /** What `tokenize` will still produce in the middle of its run. */
  ghost function Pending(cur: string, quoted: bool, started: bool, rest: string): seq<string> {
    if started then var w := Word(rest, quoted); [cur + w.0] + Words(w.1) else Words(rest)
  }

  lemma PendingStep(cur: string, quoted: bool, started: bool, rest: string)
    requires rest != "" && (started || (cur == "" && !quoted))
    ensures rest[0] == '"' ==> Pending(cur, quoted, started, rest) == Pending(cur, !quoted, true, rest[1..])
    ensures rest[0] != '"' && (quoted || !IsWhitespace(rest[0])) ==>
            Pending(cur, quoted, started, rest) == Pending(cur + [rest[0]], quoted, true, rest[1..])
    ensures rest[0] != '"' && IsWhitespace(rest[0]) && !quoted && started ==>
            Pending(cur, quoted, started, rest) == [cur] + Pending("", false, false, rest[1..])
    ensures rest[0] != '"' && IsWhitespace(rest[0]) && !quoted && !started ==>
            Pending(cur, quoted, started, rest) == Pending(cur, false, false, rest[1..])
  {
    var t := Word(rest[1..], quoted).0;
    assert cur + ([rest[0]] + t) == cur + [rest[0]] + t;
    assert cur + "" == cur;
    assert "" + [rest[0]] == [rest[0]];
    assert "" + Word(rest, false).0 == Word(rest, false).0;
  }

  method Tokenize(s: string) returns (out: seq<string>)
    ensures out == Words(s)
  {
    out := [];
    var cur := "";
    var quoted := false;
    var started := false;
    for i := 0 to |s|
      invariant started || (cur == "" && !quoted)
      invariant Words(s) == out + Pending(cur, quoted, started, s[i..])
    {
      var c := s[i];
      PendingStep(cur, quoted, started, s[i..]);
      assert s[i..][0] == c && s[i..][1..] == s[i + 1..];
      if c == '"' {
        quoted := !quoted;
        started := true;
      } else if IsWhitespace(c) && !quoted {
        if started {
          ghost var rest := Pending("", false, false, s[i + 1..]);
          assert out + ([cur] + rest) == (out + [cur]) + rest;
          out := out + [cur];
          cur := "";
          started := false;
        }
      } else {
        cur := cur + [c];
        started := true;
      }
    }
    assert s[|s|..] == "" && cur + "" == cur;
    if started {
      out := out + [cur];
    }
  }

  function Flat(words: seq<string>): string {
    if words == [] then "" else words[0] + Flat(words[1..])
  }

  /** `s` without its double quotes and without the whitespace outside them. */
  function Kept(s: string, quoted: bool): string {
    if s == "" then ""
    else if s[0] == '"' then Kept(s[1..], !quoted)
    else if IsWhitespace(s[0]) && !quoted then Kept(s[1..], quoted)
    else [s[0]] + Kept(s[1..], quoted)
  }

  lemma {:induction false} WordKeeps(s: string, quoted: bool)
    ensures Kept(s, quoted) == Word(s, quoted).0 + Kept(Word(s, quoted).1, false)
  {
    if s != "" && (s[0] == '"' || quoted || !IsWhitespace(s[0])) {
      WordKeeps(s[1..], if s[0] == '"' then !quoted else quoted);
    }
  }

  /** No character is lost, invented or moved: joined up, the words are the input minus
      quotes and unquoted whitespace. */
  lemma {:induction false} WordsLoseNothing(s: string)
    ensures Flat(Words(s)) == Kept(s, false)
    decreases |s|
  {
    if s != "" {
      if IsWhitespace(s[0]) {
        WordsLoseNothing(s[1..]);
      } else {
        WordKeeps(s, false);
        WordsLoseNothing(Word(s, false).1);
      }
    }
  }

  /** There is nothing to run exactly when the command is blank. */
  lemma {:induction false} NoWordsInBlanks(s: string)
    ensures Words(s) == [] <==> forall k :: 0 <= k < |s| ==> IsWhitespace(s[k])
  {
    if s != "" && IsWhitespace(s[0]) {
      NoWordsInBlanks(s[1..]);
      assert forall k :: 0 < k < |s| ==> s[k] == s[1..][k - 1];
    }
  }

  /** What counts as blank: the 25 code points of White_Space. */
  lemma BlanksAre(c: char)
    ensures IsWhitespace(c) <==>
            c as int in {0x9, 0xA, 0xB, 0xC, 0xD, 0x20, 0x85, 0xA0, 0x1680,
                         0x2000, 0x2001, 0x2002, 0x2003, 0x2004, 0x2005, 0x2006, 0x2007, 0x2008, 0x2009, 0x200A,
                         0x2028, 0x2029, 0x202F, 0x205F, 0x3000}
  {
  }

  /** Whether quotes are open after `s`, if they were as `quoted` says before it. */
  predicate OpenAfter(s: string, quoted: bool) {
    if s == "" then quoted else OpenAfter(s[1..], if s[0] == '"' then !quoted else quoted)
  }

  lemma {:induction false} WordAcross(a: string, tail: string, quoted: bool)
    requires tail != "" && IsWhitespace(tail[0]) && tail[0] != '"' && !OpenAfter(a, quoted)
    ensures var w := Word(a, quoted);
            Word(a + tail, quoted) == (w.0, w.1 + tail) && !OpenAfter(w.1, false)
  {
    if a == "" {
      assert a + tail == tail;
    } else {
      assert (a + tail)[1..] == a[1..] + tail;
      if a[0] == '"' || quoted || !IsWhitespace(a[0]) {
        WordAcross(a[1..], tail, if a[0] == '"' then !quoted else quoted);
      }
    }
  }

  /** A blank outside quotes separates: the words of both sides, and no others. */
  lemma {:induction false} SplitsAtBlanks(a: string, c: char, b: string)
    requires IsWhitespace(c) && !OpenAfter(a, false)
    ensures Words(a + ([c] + b)) == Words(a) + Words(b)
    decreases |a|
  {
    var tail := [c] + b;
    assert tail[1..] == b && c != '"';
    if a == "" {
      assert a + tail == tail;
    } else if IsWhitespace(a[0]) {
      assert (a + tail)[1..] == a[1..] + tail;
      SplitsAtBlanks(a[1..], c, b);
    } else {
      WordAcross(a, tail, false);
      var w := Word(a, false);
      SplitsAtBlanks(w.1, c, b);
      assert (a + tail)[0] == a[0];
    }
  }

  // ----- writing a command line -----

  /** Each argument in double quotes, joined with spaces. */
  function Quoted(args: seq<string>): string {
    if args == [] then ""
    else if |args| == 1 then "\"" + args[0] + "\""
    else "\"" + args[0] + "\"" + " " + Quoted(args[1..])
  }

  predicate QuoteFree(s: string) {
    '"' !in s
  }

  lemma WordStep(c: char, rest: string, quoted: bool)
    requires c == '"' || quoted || !IsWhitespace(c)
    ensures Word([c] + rest, quoted) ==
            if c == '"' then Word(rest, !quoted)
            else ([c] + Word(rest, quoted).0, Word(rest, quoted).1)
  {
    assert ([c] + rest)[1..] == rest;
  }

  lemma {:induction false} WordOfQuoted(a: string, rest: string)
    requires QuoteFree(a) && (rest == "" || IsWhitespace(rest[0]))
    ensures Word(a + "\"" + rest, true) == (a, rest)
  {
    if a == "" {
      assert !IsWhitespace('"');
      WordStep('"', rest, true);
      assert Word(rest, false) == ("", rest);
      assert a + "\"" + rest == "\"" + rest;
    } else {
      var s := a[1..] + "\"" + rest;
      assert a[0] in a && a == [a[0]] + a[1..];
      WordStep(a[0], s, true);
      assert a + "\"" + rest == [a[0]] + s;
      WordOfQuoted(a[1..], rest);
    }
  }

  lemma QuotedWord(a: string, rest: string)
    requires QuoteFree(a) && (rest == "" || IsWhitespace(rest[0]))
    ensures Words("\"" + a + "\"" + rest) == [a] + Words(rest)
  {
    var s, whole := a + "\"" + rest, "\"" + a + "\"" + rest;
    WordOfQuoted(a, rest);
    WordStep('"', s, false);
    assert whole == "\"" + s && whole[0] == '"' && !IsWhitespace('"');
    assert Words(whole) == [a] + Words(rest);
  }

  lemma BlankSkipped(s: string)
    ensures Words(" " + s) == Words(s)
  {
    assert (" " + s)[1..] == s;
  }

  lemma {:induction false} QuotedArgumentsComeBack(args: seq<string>)
    requires forall k :: 0 <= k < |args| ==> QuoteFree(args[k])
    ensures Words(Quoted(args)) == args
  {
    if |args| == 1 {
      QuotedWord(args[0], "");
      assert Quoted(args) == "\"" + args[0] + "\"" + "";
    } else if |args| > 1 {
      var rest := " " + Quoted(args[1..]);
      QuotedWord(args[0], rest);
      BlankSkipped(Quoted(args[1..]));
      QuotedArgumentsComeBack(args[1..]);
      assert Quoted(args) == "\"" + args[0] + "\"" + rest;
    }
  }

  lemma {:induction false} KeptHasNoQuotes(s: string, quoted: bool)
    ensures QuoteFree(Kept(s, quoted))
  {
    if s != "" {
      KeptHasNoQuotes(s[1..], if s[0] == '"' then !quoted else quoted);
    }
  }

  lemma {:induction false} PartsOfQuoteFree(words: seq<string>, k: nat)
    requires QuoteFree(Flat(words)) && k < |words|
    ensures QuoteFree(words[k])
  {
    if k > 0 {
      assert forall i :: 0 <= i < |Flat(words[1..])| ==> Flat(words)[|words[0]| + i] == Flat(words[1..])[i];
      PartsOfQuoteFree(words[1..], k - 1);
    } else {
      assert forall i :: 0 <= i < |words[0]| ==> Flat(words)[i] == words[0][i];
    }
  }

  /** Quoting and splitting is a round trip exactly for lists without double quotes, empty
      arguments included. */
  lemma QuotingRoundTrips(args: seq<string>)
    ensures Words(Quoted(args)) == args <==> forall k :: 0 <= k < |args| ==> QuoteFree(args[k])
  {
    if forall k :: 0 <= k < |args| ==> QuoteFree(args[k]) {
      QuotedArgumentsComeBack(args);
    }
    if Words(Quoted(args)) == args {
      WordsLoseNothing(Quoted(args));
      KeptHasNoQuotes(Quoted(args), false);
      forall k | 0 <= k < |args| ensures QuoteFree(args[k]) {
        PartsOfQuoteFree(args, k);
      }
    }
  }

  // ----- texts inside words -----

  ghost predicate At(s: string, pat: string, i: nat) {
    i + |pat| <= |s| && s[i..i + |pat|] == pat
  }

  ghost predicate Contains(s: string, pat: string) {
    exists i: nat :: At(s, pat, i)
  }

  predicate Plain(c: char) {
    c != '"' && !IsWhitespace(c)
  }

  predicate AllPlain(s: string) {
    forall k :: 0 <= k < |s| ==> Plain(s[k])
  }

  ghost predicate SomeContains(words: seq<string>, pat: string) {
    exists k :: 0 <= k < |words| && Contains(words[k], pat)
  }

  /** `s` without its double quotes. */
  function Strip(s: string): string {
    if s == "" then ""
    else if s[0] == '"' then Strip(s[1..])
    else [s[0]] + Strip(s[1..])
  }

  lemma {:induction false} StripSum(a: string, b: string)
    ensures Strip(a + b) == Strip(a) + Strip(b)
  {
    if a == "" {
      assert a + b == b;
    } else {
      StripSum(a[1..], b);
      assert (a + b)[1..] == a[1..] + b && (a + b)[0] == a[0];
      assert [a[0]] + (Strip(a[1..]) + Strip(b)) == [a[0]] + Strip(a[1..]) + Strip(b);
    }
  }

  lemma {:induction false} StripQuoteFree(s: string)
    requires QuoteFree(s)
    ensures Strip(s) == s
  {
    if s != "" {
      StripQuoteFree(s[1..]);
      assert s[0] in s && s == [s[0]] + s[1..];
    }
  }

  /** A word is a piece of the stripped text, up to a blank. */
  lemma {:induction false} WordStrips(s: string, quoted: bool)
    ensures var w := Word(s, quoted);
            Strip(s) == w.0 + Strip(w.1) && (w.1 == "" || (IsWhitespace(w.1[0]) && w.1[0] != '"'))
  {
    if s != "" && (s[0] == '"' || quoted || !IsWhitespace(s[0])) {
      WordStrips(s[1..], if s[0] == '"' then !quoted else quoted);
    }
  }

  lemma OneWord(s: string, word: string)
    requires s != "" && !IsWhitespace(s[0]) && Word(s, false) == (word, "")
    ensures Words(s) == [word]
  {
    assert Words("") == [];
  }

  /** A text without blanks is one word. */
  lemma NoBlankIsOneWord(s: string)
    requires s != "" && forall k :: 0 <= k < |s| ==> !IsWhitespace(s[k])
    ensures Words(s) == [Strip(s)]
  {
    var word := Word(s, false).0;
    NoBlankNoEnd(s, false);
    WordStrips(s, false);
    assert word + "" == word;
    OneWord(s, word);
  }

  lemma {:induction false} NoBlankNoEnd(s: string, quoted: bool)
    requires forall k :: 0 <= k < |s| ==> !IsWhitespace(s[k])
    ensures Word(s, quoted).1 == ""
  {
    if s != "" {
      NoBlankNoEnd(s[1..], if s[0] == '"' then !quoted else quoted);
    }
  }

  lemma ContainsInPart(a: string, b: string, pat: string)
    requires Contains(a, pat) || Contains(b, pat)
    ensures Contains(a + b, pat)
  {
    if Contains(a, pat) {
      var i: nat :| At(a, pat, i);
      assert (a + b)[i..i + |pat|] == a[i..i + |pat|];
      assert At(a + b, pat, i);
    } else {
      var i: nat :| At(b, pat, i);
      assert (a + b)[|a| + i..|a| + i + |pat|] == b[i..i + |pat|];
      assert At(a + b, pat, |a| + i);
    }
  }

  /** A blank-free pattern lies on one side of a blank. */
  lemma BlankSeparates(a: string, c: char, b: string, pat: string)
    requires AllPlain(pat) && pat != "" && IsWhitespace(c)
    ensures Contains(a + ([c] + b), pat) <==> Contains(a, pat) || Contains(b, pat)
  {
    var s := a + ([c] + b);
    if Contains(a, pat) || Contains(b, pat) {
      if Contains(b, pat) {
        ContainsInPart([c], b, pat);
      }
      ContainsInPart(a, [c] + b, pat);
    }
    if i: nat :| At(s, pat, i) {
      OnOneSide(a, c, b, pat, i);
    }
  }

  lemma PlainThroughout(s: string, pat: string, i: nat, j: nat)
    requires At(s, pat, i) && AllPlain(pat) && j < |pat|
    ensures Plain(s[i + j])
  {
    assert s[i..i + |pat|][j] == pat[j];
  }

  lemma OnOneSide(a: string, c: char, b: string, pat: string, i: nat)
    requires AllPlain(pat) && pat != "" && IsWhitespace(c) && At(a + ([c] + b), pat, i)
    ensures Contains(a, pat) || Contains(b, pat)
  {
    var s := a + ([c] + b);
    assert s[i..i + |pat|] == pat && s[|a|] == c;
    if i + |pat| <= |a| {
      assert a[i..i + |pat|] == s[i..i + |pat|];
      assert At(a, pat, i);
    } else if i <= |a| {
      PlainThroughout(s, pat, i, |a| - i);
      assert false;
    } else {
      assert b[i - |a| - 1..i - |a| - 1 + |pat|] == s[i..i + |pat|];
      assert At(b, pat, i - |a| - 1);
    }
  }

  lemma HeadOrTailContains(w: string, ws: seq<string>, pat: string)
    ensures SomeContains([w] + ws, pat) <==> Contains(w, pat) || SomeContains(ws, pat)
  {
    var all := [w] + ws;
    if SomeContains(all, pat) {
      var k :| 0 <= k < |all| && Contains(all[k], pat);
      assert k > 0 ==> ws[k - 1] == all[k];
    }
    if Contains(w, pat) {
      assert all[0] == w;
    }
    if SomeContains(ws, pat) {
      var k :| 0 <= k < |ws| && Contains(ws[k], pat);
      assert all[k + 1] == ws[k];
    }
  }

  /** Some word of a command line has a given blank-free text in it exactly when the line
      without its quotes does. */
  lemma {:induction false} WordsContain(s: string, pat: string)
    requires AllPlain(pat) && pat != ""
    ensures SomeContains(Words(s), pat) <==> Contains(Strip(s), pat)
    decreases |s|
  {
    if s != "" {
      if IsWhitespace(s[0]) {
        WordsContain(s[1..], pat);
        BlankSeparates("", s[0], Strip(s[1..]), pat);
        assert "" + ([s[0]] + Strip(s[1..])) == Strip(s);
      } else {
        WordThenRest(s, pat);
        var w := Word(s, false);
        if w.1 != "" {
          WordsContain(w.1[1..], pat);
        }
      }
    }
  }

  lemma WordThenRest(s: string, pat: string)
    requires AllPlain(pat) && pat != "" && s != "" && !IsWhitespace(s[0])
    ensures var w := Word(s, false);
            && (SomeContains(Words(s), pat) <==>
                Contains(w.0, pat) || (w.1 != "" && SomeContains(Words(w.1[1..]), pat)))
            && (Contains(Strip(s), pat) <==>
                Contains(w.0, pat) || (w.1 != "" && Contains(Strip(w.1[1..]), pat)))
  {
    var w := Word(s, false);
    WordStrips(s, false);
    HeadOrTailContains(w.0, Words(w.1), pat);
    if w.1 == "" {
      assert w.0 + "" == w.0;
    } else {
      BlankSeparates(w.0, w.1[0], Strip(w.1[1..]), pat);
    }
  }

  /** Removing quotes does not tear a plain text apart. */
  lemma StrippedContains(s: string, pat: string)
    requires AllPlain(pat) && Contains(s, pat)
    ensures Contains(Strip(s), pat)
  {
    var i: nat :| At(s, pat, i);
    var front, back := s[..i], s[i + |pat|..];
    assert s == front + (pat + back);
    StripSum(front, pat + back);
    StripSum(pat, back);
    StripQuoteFree(pat);
    assert At(pat, pat, 0);
    ContainsInPart(pat, Strip(back), pat);
    ContainsInPart(Strip(front), pat + Strip(back), pat);
  }

  function ExpandAll(tokens: seq<string>, m: Member): (r: seq<string>)
    ensures |r| == |tokens| && forall k :: 0 <= k < |r| ==> r[k] == Expand(tokens[k], m)
  {
    if tokens == [] then [] else [Expand(tokens[0], m)] + ExpandAll(tokens[1..], m)
  }

  datatype Launch = NoCommand | NoAddress(name: string) | Spawn(argv: seq<string>)

  /** What `run` does before it spawns anything. */
  ghost function Launched(command: string, m: Member): Launch {
    if Words(command) == [] then NoCommand
    else if Contains(command, IP) && m.virtualIp.None? then NoAddress(DisplayName(m))
    else Spawn(ExpandAll(Words(command), m))
  }

  /** What comes of a launch: nothing for a blank command; otherwise a refusal that names the
      member, or one argument for each word, with the details filled in. */
  lemma LaunchIs(command: string, m: Member)
    ensures var l := Launched(command, m);
            && (l.NoCommand? <==> forall k :: 0 <= k < |command| ==> IsWhitespace(command[k]))
            && (l.NoAddress? ==> l.name == DisplayName(m))
            && (l.Spawn? ==> |l.argv| == |Words(command)|
                             && forall k :: 0 <= k < |l.argv| ==> l.argv[k] == Expand(Words(command)[k], m))
  {
    NoWordsInBlanks(command);
    if Words(command) == [] {
      FoundInBlank(command);
    }
  }

  lemma FoundInBlank(command: string)
    requires Words(command) == []
    ensures !Contains(command, IP)
  {
    if Contains(command, IP) {
      StrippedContains(command, IP);
      WordsContain(command, IP);
      assert false;
    }
  }

  /** A launch is refused for lack of an address exactly when some word asks for one. */
  ghost predicate RefusedIfNeeded(command: string, m: Member) {
    Launched(command, m).NoAddress? <==> SomeContains(Words(command), IP) && m.virtualIp.None?
  }

  /** The check for a missing address looks at the command before it is split, the
      substitution at the words after. They agree if and only if a placeholder that shows
      once the quotes are taken away also shows with them, or there is an address. */
  lemma RefusedExactlyWhenNeeded(command: string, m: Member)
    ensures RefusedIfNeeded(command, m) <==>
            m.virtualIp.Some? || (Contains(Strip(command), IP) ==> Contains(command, IP))
  {
    WordsContain(command, IP);
    if Contains(command, IP) {
      StrippedContains(command, IP);
    }
  }

  /** So it is right for every command without quotes. */
  lemma QuoteFreeIsEnough(command: string, m: Member)
    requires QuoteFree(command)
    ensures RefusedIfNeeded(command, m)
  {
    StripQuoteFree(command);
    RefusedExactlyWhenNeeded(command, m);
  }

  /** And a refusal always has a reason. */
  lemma RefusalsAreNeeded(command: string, m: Member)
    requires Launched(command, m).NoAddress?
    ensures SomeContains(Words(command), IP) && m.virtualIp.None?
  {
    StrippedContains(command, IP);
    WordsContain(command, IP);
  }

  const HIDDEN := "{i\"p\"}"

  lemma HiddenTail()
    ensures Word("p\"}", true) == ("p}", "")
  {
    assert "}" == "}" + "" && "\"}" == "\"" + "}" && "p\"}" == "p" + "\"}";
    WordStep('}', "", false);
    assert Word("", false) == ("", "");
    WordStep('"', "}", true);
    WordStep('p', "\"}", true);
    assert "p}" == "p" + ("}" + "");
  }

  lemma HiddenPlaceholder()
    ensures Words(HIDDEN) == [IP]
  {
    HiddenTail();
    assert "\"p\"}" == "\"" + "p\"}" && "i\"p\"}" == "i" + "\"p\"}" && HIDDEN == "{" + "i\"p\"}";
    WordStep('"', "p\"}", false);
    WordStep('i', "\"p\"}", false);
    WordStep('{', "i\"p\"}", false);
    assert IP == "{" + ("i" + "p}");
    OneWord(HIDDEN, IP);
  }

  /** But quotes inside a placeholder hide it from the check, and the word is spawned with
      the address missing. */
  lemma QuotesHideAPlaceholder(m: Member)
    requires m.virtualIp.None?
    ensures Words(HIDDEN) == [IP] && Launched(HIDDEN, m) == Spawn([""])
  {
    HiddenPlaceholder();
    forall i: nat ensures !At(HIDDEN, IP, i) {
      if i + 4 <= |HIDDEN| {
        assert HIDDEN[i..i + 4][2] == HIDDEN[i + 2];
        assert HIDDEN[i..i + 4][0] == HIDDEN[i];
      }
    }
    assert IP[..4] == IP && IP[4..] == "";
    assert Replace(IP, IP, "") == "" + Replace("", IP, "");
    assert ExpandAll([IP], m) == [Expand(IP, m)];
  }

  // ----- the macOS script -----

  const ESCAPED := "'\\''"

  /** Single quotes around everything; a single quote is closed, escaped and reopened. */
  function ShQuote(s: string): string {
    "'" + Replace(s, "'", ESCAPED) + "'"
  }

  /** How a POSIX shell reads one word that uses only single quotes and backslashes
      (sections 2.2.1 and 2.2.2 of the Shell Command Language). Any other character outside
      quotes makes it fail, since it could have a meaning there. */
  function ShellWord(s: string, quoted: bool): (w: Option<(string, string)>)
    ensures w.Some? ==> |w.value.1| <= |s|
    ensures w.Some? && s != "" && s[0] !in {' ', '\n'} ==> |w.value.1| < |s|
    decreases |s|
  {
    if s == "" then if quoted then None else Some(("", ""))
    else if s[0] == '\'' then ShellWord(s[1..], !quoted)
    else if quoted then Prepend(s[0], ShellWord(s[1..], true))
    else if s[0] in {' ', '\n'} then Some(("", s))
    else if s[0] == '\\' && |s| >= 2 && s[1] != '\n' then Prepend(s[1], ShellWord(s[2..], false))
    else None
  }

  function Prepend(c: char, w: Option<(string, string)>): Option<(string, string)> {
    if w.Some? then Some(([c] + w.value.0, w.value.1)) else None
  }

  /** One command line, up to its newline. */
  function ShellLine(s: string): Option<seq<string>>
    decreases |s|
  {
    if s == "" || s[0] == '\n' then Some([])
    else if s[0] == ' ' then ShellLine(s[1..])
    else
      var w := ShellWord(s, false);
      if w.None? then None
      else
        var rest := ShellLine(w.value.1);
        if rest.None? then None else Some([w.value.0] + rest.value)
  }

  function Tail(args: seq<string>): string {
    if args == [] then "\n" else " " + ShQuote(args[0]) + Tail(args[1..])
  }

  method ScriptFor(program: string, args: seq<string>) returns (script: string)
    ensures script == "#!/bin/sh\n" + ShQuote(program) + Tail(args)
  {
    script := "#!/bin/sh\n";
    script := script + ShQuote(program);
    for i := 0 to |args|
      invariant script + Tail(args[i..]) == "#!/bin/sh\n" + ShQuote(program) + Tail(args)
    {
      script := script + " ";
      script := script + ShQuote(args[i]);
      assert args[i..][1..] == args[i + 1..];
    }
    script := script + "\n";
  }

  lemma ShellStep(c: char, rest: string, quoted: bool)
    requires quoted || c == '\''
    ensures ShellWord([c] + rest, quoted) ==
            if c == '\'' then ShellWord(rest, !quoted) else Prepend(c, ShellWord(rest, true))
  {
    assert ([c] + rest)[1..] == rest;
  }

  lemma ShellEscape(c: char, rest: string)
    requires c != '\n'
    ensures ShellWord("\\" + ([c] + rest), false) == Prepend(c, ShellWord(rest, false))
  {
    var s := "\\" + ([c] + rest);
    assert s[0] == '\\' && s[1] == c && s[2..] == rest;
  }

  lemma ReplaceOne(c: char, s: string, from: char, to: string)
    ensures Replace([c] + s, [from], to) == (if c == from then to else [c]) + Replace(s, [from], to)
  {
    assert ([c] + s)[1..] == s && ([c] + s)[..1] == [c];
  }

  lemma ShellReadsEscape(s: string)
    ensures ShellWord(ESCAPED + s, true) == Prepend('\'', ShellWord(s, true))
  {
    ShellStep('\'', "\\" + ("'" + ("'" + s)), true);
    ShellEscape('\'', "'" + s);
    ShellStep('\'', s, false);
    assert ESCAPED + s == "'" + ("\\" + ("'" + ("'" + s)));
  }

  lemma {:induction false} ShellReadsBack(a: string, rest: string)
    requires rest != "" && rest[0] in {' ', '\n'}
    ensures ShellWord(Replace(a, "'", ESCAPED) + "'" + rest, true) == Some((a, rest))
  {
    if a == "" {
      ShellStep('\'', rest, true);
      assert Replace(a, "'", ESCAPED) + "'" + rest == "'" + rest;
    } else {
      var c, r := a[0], Replace(a[1..], "'", ESCAPED);
      var s := r + "'" + rest;
      ShellReadsBack(a[1..], rest);
      assert a == [c] + a[1..];
      ReplaceOne(c, a[1..], '\'', ESCAPED);
      if c == '\'' {
        ShellReadsEscape(s);
        assert ESCAPED + r + "'" + rest == ESCAPED + s;
      } else {
        ShellStep(c, s, true);
        assert [c] + r + "'" + rest == [c] + s;
      }
    }
  }

  lemma ShellReadsQuoted(a: string, rest: string)
    requires rest != "" && rest[0] in {' ', '\n'} && ShellLine(rest).Some?
    ensures ShellLine(ShQuote(a) + rest) == Some([a] + ShellLine(rest).value)
  {
    var s := Replace(a, "'", ESCAPED) + "'" + rest;
    assert ShQuote(a) + rest == "'" + s;
    ShellReadsBack(a, rest);
    ShellStep('\'', s, false);
  }

  lemma ShellSkipsSpace(s: string, rest: string)
    ensures ShellLine(" " + s + rest) == ShellLine(s + rest)
  {
    assert (" " + s + rest)[1..] == s + rest;
  }

  lemma ShellReadsOneMore(a: string, rest: string)
    requires rest != "" && rest[0] in {' ', '\n'} && ShellLine(rest).Some?
    ensures ShellLine(" " + ShQuote(a) + rest) == Some([a] + ShellLine(rest).value)
  {
    ShellReadsQuoted(a, rest);
    ShellSkipsSpace(ShQuote(a), rest);
  }

  lemma {:induction false} ShellReadsArguments(args: seq<string>)
    ensures ShellLine(Tail(args)) == Some(args)
  {
    if args != [] {
      ShellReadsArguments(args[1..]);
      ShellReadsOneMore(args[0], Tail(args[1..]));
      assert args == [args[0]] + args[1..];
    }
  }

  /** The shell runs exactly the arguments given, whatever characters they contain. */
  lemma ScriptRunsTheArguments(program: string, args: seq<string>)
    ensures ShellLine(ShQuote(program) + Tail(args)) == Some([program] + args)
  {
    ShellReadsArguments(args);
    ShellReadsQuoted(program, Tail(args));
  }
}
