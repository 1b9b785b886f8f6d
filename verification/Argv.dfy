/**
 split_argv and assemble_argv of auth2-pubkey.c. Strings are C strings without their final NUL.
 At the start of a token the parser drops the backslash of an escape and then reads the escaped
 character once more, so that a leading backslash puts it out of phase with the printer.
 */
module Argv {
  import opened Wrappers

  predicate Blank(c: char) {
    c == ' ' || c == '\t'
  }

  predicate Quote(c: char) {
    c == '\'' || c == '"'
  }

  predicate Special(c: char) {
    c == '\\' || Quote(c)
  }

  /** A backslash followed by a character it escapes. */
  predicate Escaped(s: string) {
    |s| > 1 && s[0] == '\\' && Special(s[1])
  }

  // ----- parsing

  /** A token's text and what follows it, from its terminator on. */
  datatype Token = Token(arg: string, rest: string)

  function Grow(arg: string, t: Token): Token {
    t.(arg := arg + t.arg)
  }

  function Prepend(argv: seq<string>, more: Option<seq<string>>): Option<seq<string>> {
    if more.None? then None else Some(argv + more.value)
  }

  lemma GrowLaws(a: string, b: string, t: Token)
    ensures Grow("", t) == t && Grow(a, Grow(b, t)) == Grow(a + b, t)
  {
    assert "" + t.arg == t.arg && a + (b + t.arg) == a + b + t.arg;
  }

  lemma PrependLaws(a: seq<string>, b: seq<string>, m: Option<seq<string>>)
    ensures Prepend([], m) == m && Prepend(a, Prepend(b, m)) == Prepend(a + b, m)
  {
    if m.Some? {
      assert [] + m.value == m.value && a + (b + m.value) == a + b + m.value;
    }
  }

  function TakeToken(s: string, quote: Option<char>): (r: Token)
    ensures |r.rest| <= |s|
    decreases |s|
  {
    if s == "" then Token("", "")
    else if Escaped(s) then
      Grow([s[1]], TakeToken(s[2..], quote))
    else if s[0] != '\\' && (if quote.None? then Blank(s[0]) else s[0] == quote.value) then Token("", s)
    else
      Grow([s[0]], TakeToken(s[1..], quote))
  }

  /** The text that follows lets a token with this quoting end here. */
  predicate Ends(tail: string, quote: Option<char>) {
    tail == "" || (tail[0] != '\\' && if quote.None? then Blank(tail[0]) else tail[0] == quote.value)
  }

  lemma TokenEnd(tail: string, quote: Option<char>)
    requires Ends(tail, quote)
    ensures TakeToken(tail, quote) == Token("", tail)
  {
  }

  lemma TokenEscape(c: char, more: string, quote: Option<char>)
    requires Special(c)
    ensures TakeToken(['\\', c] + more, quote) == Grow([c], TakeToken(more, quote))
  {
    assert (['\\', c] + more)[2..] == more;
  }

  /** A character that is neither an escape nor a terminator stands for itself. */
  lemma TokenPlain(c: char, more: string, quote: Option<char>)
    requires if c == '\\' then more == "" || !Special(more[0])
             else if quote.None? then !Blank(c) else c != quote.value
    ensures TakeToken([c] + more, quote) == Grow([c], TakeToken(more, quote))
  {
    assert ([c] + more)[1..] == more;
  }

  /** None stands for SSH_ERR_INVALID_FORMAT: the string ended inside quotes. */
  function Split(s: string): Option<seq<string>>
    decreases |s|
  {
    if s == "" then Some([])
    else if Blank(s[0]) then Split(s[1..])
    else
      var quote := if Quote(s[0]) then Some(s[0]) else None;
      var t := TakeToken(if Escaped(s) || quote.Some? then s[1..] else s, quote);
      if t.rest == "" then if quote.Some? then None else Some([t.arg])
      else
        Prepend([t.arg], Split(t.rest[1..]))
  }

  /** The inner loop of split_argv: copy a token, removing escapes, up to its terminator. */
  method CopyToken(s: string, start: nat, quote: Option<char>) returns (arg: string, i: nat)
    requires start <= |s|
    ensures start <= i <= |s| && Token(arg, s[i..]) == TakeToken(s[start..], quote)
  {
    i, arg := start, "";
    hide TakeToken;
    ghost var want := TakeToken(s[start..], quote);
    GrowLaws("", "", want);
    while i < |s|
      invariant start <= i <= |s|
      invariant want == Grow(arg, TakeToken(s[i..], quote))
    {
      ghost var here := s[i..];
      if s[i] == '\\' {
        if i + 1 < |s| && Special(s[i + 1]) {
          i := i + 1;
        }
      } else if quote == None && Blank(s[i]) {
        break;
      } else if quote == Some(s[i]) {
        break;
      }
      ghost var more := s[i + 1..];
      if Escaped(here) {
        assert here == ['\\', s[i]] + more;
        TokenEscape(s[i], more, quote);
      } else {
        assert here == [s[i]] + more;
        TokenPlain(s[i], more, quote);
      }
      GrowLaws(arg, [s[i]], TakeToken(more, quote));
      arg := arg + [s[i]];
      i := i + 1;
    }
    TokenEnd(s[i..], quote);
    assert arg + "" == arg;
  }

  /** split_argv. */
  method SplitArgv(s: string) returns (r: Option<seq<string>>)
    ensures r == Split(s)
  {
    hide TakeToken;
    var argv: seq<string> := [];
    var i := 0;
    assert s[0..] == s;
    PrependLaws([], [], Split(s));
    while i < |s|
      invariant i <= |s|
      invariant Split(s) == Prepend(argv, Split(s[i..]))
    {
      ghost var here := s[i..];
      if !Blank(s[i]) {
        var quote := None;
        if s[i] == '\\' && i + 1 < |s| && Special(s[i + 1]) {
          assert here[1..] == s[i + 1..];
          i := i + 1;
        } else if Quote(s[i]) {
          assert here[1..] == s[i + 1..];
          quote := Some(s[i]);
          i := i + 1;
        }
        var arg;
        arg, i := CopyToken(s, i, quote);
        ghost var t := Token(arg, s[i..]);
        if i == |s| {
          return if quote.Some? then None else Some(argv + [arg]);
        }
        assert t.rest[1..] == s[i + 1..];
        PrependLaws(argv, [arg], Split(s[i + 1..]));
        argv := argv + [arg];
      } else {
        assert here[1..] == s[i + 1..];
      }
      i := i + 1;
    }
    assert s[i..] == "" && argv + [] == argv;
    r := Some(argv);
  }

  // ----- printing

  function Escape(arg: string): string {
    if arg == "" then "" else (if Special(arg[0]) then ['\\', arg[0]] else [arg[0]]) + Escape(arg[1..])
  }

  predicate HasBlank(arg: string) {
    exists c <- arg :: Blank(c)
  }

  function Word(arg: string): string {
    if HasBlank(arg) then ['"'] + Escape(arg) + ['"'] else Escape(arg)
  }

  function Assemble(argv: seq<string>): string {
    if argv == [] then "" else if |argv| == 1 then Word(argv[0])
    else Word(argv[0]) + [' '] + Assemble(argv[1..])
  }

  lemma {:induction false} EscapeAppend(a: string, c: char)
    ensures Escape(a + [c]) == Escape(a) + if Special(c) then ['\\', c] else [c]
  {
    if a != "" {
      assert (a + [c])[1..] == a[1..] + [c];
      EscapeAppend(a[1..], c);
    }
  }

  lemma {:induction false} AssembleAppend(argv: seq<string>, arg: string)
    ensures Assemble(argv + [arg]) == Assemble(argv) + (if argv == [] then "" else [' ']) + Word(arg)
  {
    if argv != [] {
      assert (argv + [arg])[1..] == argv[1..] + [arg];
      AssembleAppend(argv[1..], arg);
    }
  }

  /** assemble_argv. */
  method AssembleArgv(argv: seq<string>) returns (buf: string)
    ensures buf == Assemble(argv)
  {
    buf := "";
    for i := 0 to |argv|
      invariant buf == Assemble(argv[..i])
    {
      var ws, arg := false, "";
      for j := 0 to |argv[i]|
        invariant ws == HasBlank(argv[i][..j])
        invariant arg == Escape(argv[i][..j])
      {
        var c := argv[i][j];
        assert argv[i][..j + 1] == argv[i][..j] + [c];
        EscapeAppend(argv[i][..j], c);
        if Blank(c) {
          ws := true;
        }
        arg := arg + if Special(c) then ['\\', c] else [c];
      }
      assert argv[i][..|argv[i]|] == argv[i];
      assert argv[..i + 1] == argv[..i] + [argv[i]];
      AssembleAppend(argv[..i], argv[i]);
      if i != 0 {
        buf := buf + [' '];
      }
      buf := buf + if ws then ['"'] + arg + ['"'] else arg;
    }
    assert argv[..|argv|] == argv;
  }

  // ----- round trip

  lemma EscapeHead(arg: string)
    requires arg != ""
    ensures Escape(arg) == (if Special(arg[0]) then ['\\', arg[0]] else [arg[0]]) + Escape(arg[1..])
  {
  }

  /** Read from the start of an escape sequence, an escaped argument comes back as it was. */
  lemma {:induction false} InPhase(arg: string, quote: Option<char>, tail: string)
    requires Ends(tail, quote)
    requires if quote.None? then !HasBlank(arg) else Quote(quote.value)
    ensures TakeToken(Escape(arg) + tail, quote) == Token(arg, tail)
  {
    hide TakeToken;
    if arg == "" {
      assert Escape(arg) + tail == tail;
      TokenEnd(tail, quote);
    } else {
      hide Escape;
      EscapeHead(arg);
      var more := Escape(arg[1..]) + tail;
      assert arg[0] in arg && forall c <- arg[1..] :: c in arg;
      InPhase(arg[1..], quote, tail);
      if Special(arg[0]) {
        assert Escape(arg) + tail == ['\\', arg[0]] + more;
        TokenEscape(arg[0], more, quote);
      } else {
        assert Escape(arg) + tail == [arg[0]] + more;
        TokenPlain(arg[0], more, quote);
      }
      assert arg == [arg[0]] + arg[1..];
    }
  }

  /** And so it does from inside one: the parser is one character behind until it meets a plain one. */
  lemma {:induction false} OutOfPhase(c: char, arg: string, tail: string)
    requires Special(c) && !HasBlank(arg) && Ends(tail, None)
    ensures TakeToken([c] + Escape(arg) + tail, None) == Token([c] + arg, tail)
    decreases |arg|
  {
    hide TakeToken;
    var s := [c] + Escape(arg) + tail;
    var more := Escape(arg) + tail;
    assert s == [c] + more;
    if c == '\\' && arg != "" && Special(arg[0]) {
      hide Escape;
      EscapeHead(arg);
      var next := [arg[0]] + Escape(arg[1..]) + tail;
      assert s == ['\\', '\\'] + next;
      TokenEscape('\\', next, None);
      assert forall d <- arg[1..] :: d in arg;
      OutOfPhase(arg[0], arg[1..], tail);
      assert arg == [arg[0]] + arg[1..];
    } else {
      InPhase(arg, None, tail);
      if arg == "" {
        assert more == tail;
      } else {
        assert more[0] == Escape(arg)[0];
      }
      TokenPlain(c, more, None);
    }
  }

  lemma SplitBlank(tail: string)
    requires tail == "" || tail[0] == ' '
    ensures tail != "" ==> Split(tail) == Split(tail[1..])
  {
  }

  lemma SplitQuoted(arg: string, tail: string)
    requires HasBlank(arg)
    ensures Split(Word(arg) + tail) == Prepend([arg], Split(tail))
  {
    hide HasBlank, Escape, TakeToken;
    var s := Word(arg) + tail;
    var rest := ['"'] + tail;
    assert s[0] == '"' && s[1..] == Escape(arg) + rest;
    InPhase(arg, Some('"'), rest);
    assert rest[1..] == tail;
  }

  /** What an unquoted token leaves: either nothing, or the blank that ended it. */
  lemma SplitBare(s: string, arg: string, tail: string)
    requires s != "" && !Blank(s[0]) && !Quote(s[0]) && (tail == "" || tail[0] == ' ')
    requires TakeToken(if Escaped(s) then s[1..] else s, None) == Token(arg, tail)
    ensures Split(s) == Prepend([arg], Split(tail))
  {
    hide TakeToken;
    SplitBlank(tail);
    if tail == "" {
      assert [arg] + [] == [arg];
    }
  }

  lemma SplitUnquoted(arg: string, tail: string)
    requires arg != "" && !HasBlank(arg) && (tail == "" || tail[0] == ' ')
    ensures Split(Word(arg) + tail) == Prepend([arg], Split(tail))
  {
    hide Split, TakeToken;
    var s := Word(arg) + tail;
    EscapeHead(arg);
    assert forall c <- arg[1..] :: c in arg;
    assert arg[0] in arg;
    if Special(arg[0]) {
      assert s[0] == '\\' && s[1] == arg[0] && s[1..] == [arg[0]] + Escape(arg[1..]) + tail;
      OutOfPhase(arg[0], arg[1..], tail);
      assert arg == [arg[0]] + arg[1..];
    } else {
      InPhase(arg, None, tail);
    }
    SplitBare(s, arg, tail);
  }

  /** One printed argument, and whatever was printed after it, is parsed as that argument and the rest. */
  lemma SplitWord(arg: string, tail: string)
    requires arg != "" && (tail == "" || tail[0] == ' ')
    ensures Split(Word(arg) + tail) == Prepend([arg], Split(tail))
  {
    if HasBlank(arg) {
      SplitQuoted(arg, tail);
    } else {
      SplitUnquoted(arg, tail);
    }
  }

  function NonEmpty(argv: seq<string>): seq<string> {
    if argv == [] then [] else (if argv[0] == "" then [] else [argv[0]]) + NonEmpty(argv[1..])
  }

  /** Printing and parsing any argument vector loses its empty arguments and nothing else. */
  lemma {:induction false} SplitAssemble(argv: seq<string>)
    ensures Split(Assemble(argv)) == Some(NonEmpty(argv))
  {
    if argv != [] {
      var tail := if |argv| == 1 then "" else [' '] + Assemble(argv[1..]);
      assert Assemble(argv) == Word(argv[0]) + tail;
      SplitAssemble(argv[1..]);
      assert |argv| > 1 ==> tail[1..] == Assemble(argv[1..]);
      assert Split(tail) == Some(NonEmpty(argv[1..]));
      if argv[0] == "" {
        assert Word(argv[0]) + tail == tail && [] + NonEmpty(argv[1..]) == NonEmpty(argv[1..]);
      } else {
        SplitWord(argv[0], tail);
      }
    }
  }

  lemma {:induction false} NonEmptyKeeps(argv: seq<string>)
    ensures |NonEmpty(argv)| <= |argv|
    ensures NonEmpty(argv) == argv <==> "" !in argv
  {
    if argv != [] {
      NonEmptyKeeps(argv[1..]);
      assert argv == [argv[0]] + argv[1..];
      assert argv[0] != "" ==> NonEmpty(argv)[1..] == NonEmpty(argv[1..]);
    }
  }

  /** So the round trip is exact if and only if no argument is empty. */
  lemma RoundTripIff(argv: seq<string>)
    ensures Split(Assemble(argv)) == Some(argv) <==> "" !in argv
  {
    SplitAssemble(argv);
    NonEmptyKeeps(argv);
  }

  // ----- texts that were not printed

  /** Leading blanks and tabs are skipped. */
  lemma SplitSkips(c: char, s: string)
    requires c == ' ' || c == '\t'
    ensures Split([c] + s) == Split(s)
  {
    assert ([c] + s)[1..] == s;
  }

  /** A word in either kind of quotes is one argument, empty or with blanks in it, and more may follow at once. */
  lemma SplitInQuotes(q: char, arg: string, tail: string)
    requires q == '\'' || q == '"'
    ensures Split([q] + Escape(arg) + [q] + tail) == Prepend([arg], Split(tail))
  {
    hide TakeToken, Escape;
    var s := [q] + Escape(arg) + [q] + tail;
    var rest := [q] + tail;
    assert s[0] == q && s[1..] == Escape(arg) + rest;
    InPhase(arg, Some(q), rest);
    assert rest[1..] == tail;
  }

  /** A quote that is not closed makes the whole text malformed. */
  lemma SplitUnclosed(q: char, arg: string)
    requires q == '\'' || q == '"'
    ensures Split([q] + Escape(arg)) == None
  {
    hide TakeToken, Escape;
    var s := [q] + Escape(arg);
    assert s[0] == q && s[1..] == Escape(arg) + "";
    InPhase(arg, Some(q), "");
  }

  /** No blank in it, and no backslash before a character that it would escape. */
  predicate Raw(word: string) {
    && ' ' !in word && '\t' !in word
    && forall i | 0 <= i < |word| - 1 && word[i] == '\\' :: word[i + 1] !in {'\\', '\'', '"'}
  }

  lemma {:induction false} RawToken(word: string, tail: string)
    requires Raw(word) && (tail == "" || tail[0] == ' ' || tail[0] == '\t')
    ensures TakeToken(word + tail, None) == Token(word, tail)
  {
    hide TakeToken;
    if word == "" {
      assert word + tail == tail;
      TokenEnd(tail, None);
    } else {
      var more := word[1..] + tail;
      assert word[0] in word && forall c <- word[1..] :: c in word;
      assert forall i | 0 <= i < |word| - 1 :: word[1..][i] == word[i + 1];
      RawToken(word[1..], tail);
      assert word + tail == [word[0]] + more;
      TokenPlain(word[0], more, None);
      assert word == [word[0]] + word[1..];
    }
  }

  /** An unquoted word is taken as it stands, stray backslashes and inner quotes included, up to a blank or tab. */
  lemma SplitRaw(word: string, tail: string)
    requires Raw(word) && word != "" && word[0] !in {'\'', '"'}
    requires tail == "" || tail[0] == ' ' || tail[0] == '\t'
    ensures Split(word + tail) == Prepend([word], if tail == "" then Some([]) else Split(tail[1..]))
  {
    hide TakeToken;
    assert word[0] in word;
    RawToken(word, tail);
    var s := word + tail;
    assert !Escaped(s) by {
      if |word| > 1 {
        assert s[0] == word[0] && s[1] == word[1];
      }
    }
    if tail == "" {
      assert [word] + [] == [word];
    }
  }

  // ----- what is printed

  lemma {:induction false} EscapeConcat(a: string, b: string)
    ensures Escape(a + b) == Escape(a) + Escape(b)
  {
    if a == "" {
      assert a + b == b;
    } else {
      assert (a + b)[1..] == a[1..] + b;
      EscapeConcat(a[1..], b);
    }
  }

  /** Backslashes and both quotes get a backslash, and nothing else does. */
  lemma EscapeOne(c: char)
    ensures Escape([c]) == if c in {'\\', '\'', '"'} then ['\\', c] else [c]
  {
    assert [c][1..] == "";
  }

  /** An argument with a blank or tab is put in double quotes; arguments are joined by single spaces. */
  lemma PrintedForm(argv: seq<string>, arg: string)
    ensures Assemble(argv + [arg]) == Assemble(argv) + (if argv == [] then "" else " ")
      + if ' ' in arg || '\t' in arg then "\"" + Escape(arg) + "\"" else Escape(arg)
  {
    hide Assemble, Escape;
    AssembleAppend(argv, arg);
    assert HasBlank(arg) <==> ' ' in arg || '\t' in arg;
    var quoted := ['"'] + Escape(arg) + ['"'];
    assert quoted == "\"" + Escape(arg) + "\"";
  }
}
