/** The canonical match string of an invocation and a reader for it
    (internal/aclrules/aclrules.go). Characters are Unicode scalar values. */
module ShellQuote {
  import opened Wrappers
  import opened Text

  /** The characters of `shellSafeChars`. */
  predicate IsSafeChar(c: char) {
    'a' <= c <= 'z' || 'A' <= c <= 'Z' || '0' <= c <= '9'
    || c == '_' || c == '-' || c == '.' || c == '/' || c == ':' || c == '=' || c == '@' || c == ','
  }

  predicate IsShellSafe(s: string) {
    s != "" && forall i :: 0 <= i < |s| ==> IsSafeChar(s[i])
  }

  /** An embedded quote becomes: close, escaped quote, reopen. */
  const QUOTE_ESCAPE := "'\\''"

  function Shellescape(s: string): string {
    if IsShellSafe(s) then s else "'" + ReplaceAll(s, "'", QUOTE_ESCAPE) + "'"
  }

  /** The arguments after the command, each behind a blank. */
  function Escaped(args: seq<string>): string {
    if args == [] then "" else " " + Shellescape(args[0]) + Escaped(args[1..])
  }

  function Canonical(cmd: string, args: seq<string>): string {
    Shellescape(cmd) + Escaped(args)
  }

  lemma {:induction false} EscapedSnoc(args: seq<string>, a: string)
    ensures Escaped(args + [a]) == Escaped(args) + (" " + Shellescape(a))
  {
    var last := " " + Shellescape(a);
    if args == [] {
      assert (args + [a])[1..] == [];
      assert last + "" == last;
    } else {
      EscapedSnoc(args[1..], a);
      assert (args + [a])[1..] == args[1..] + [a];
      Assoc(" " + Shellescape(args[0]), Escaped(args[1..]), last);
    }
  }

  /** `Canonicalize`, with its string builder. */
  method Canonicalize(cmd: string, args: seq<string>) returns (sb: string)
    ensures sb == Canonical(cmd, args)
  {
    sb := Shellescape(cmd);
    for i := 0 to |args|
      invariant sb == Canonical(cmd, args[..i])
    {
      assert args[..i + 1] == args[..i] + [args[i]];
      EscapedSnoc(args[..i], args[i]);
      Assoc(Shellescape(cmd), Escaped(args[..i]), " " + Shellescape(args[i]));
      sb := sb + (" " + Shellescape(args[i]));
    }
    assert args[..|args|] == args;
  }

  // ---------- a word reader ----------

  /** One word, by the quoting rules of the Shell Command Language in POSIX.1-2017: between single
      quotes every character stands for itself (section 2.2.2); outside, a backslash takes the next
      character literally and disappears before a line break (section 2.2.1). A blank ends the word.
      Unquoted characters that are not plainly literal are refused. The result is the word and what
      follows it. */
  function ReadWord(s: string, quoted: bool): Option<(string, string)> {
    if quoted then
      if s == "" then None
      else if s[0] == '\'' then ReadWord(s[1..], false)
      else Prefix(s[0], ReadWord(s[1..], true))
    else if s == "" || s[0] == ' ' then Some(("", s))
    else if s[0] == '\'' then ReadWord(s[1..], true)
    else if s[0] == '\\' then
      if |s| == 1 then None
      else if s[1] == '\n' then ReadWord(s[2..], false)
      else Prefix(s[1], ReadWord(s[2..], false))
    else if IsSafeChar(s[0]) then Prefix(s[0], ReadWord(s[1..], false))
    else None
  }

  function Prefix(c: char, r: Option<(string, string)>): Option<(string, string)> {
    match r
    case None => None
    case Some((word, rest)) => Some(([c] + word, rest))
  }

  lemma {:induction false} ReadWordShrinks(s: string, quoted: bool)
    ensures ReadWord(s, quoted).Some? ==> |ReadWord(s, quoted).value.1| <= |s|
    ensures ReadWord(s, quoted).Some? && s != "" && s[0] != ' ' ==> |ReadWord(s, quoted).value.1| < |s|
  {
    if s != "" {
      ReadWordShrinks(s[1..], true);
      ReadWordShrinks(s[1..], false);
      if |s| > 1 {
        ReadWordShrinks(s[2..], false);
      }
    }
  }

  /** All words of a text; blanks between words are skipped. */
  function ReadWords(s: string): Option<seq<string>>
    decreases |s|
  {
    if s == "" then Some([])
    else if s[0] == ' ' then ReadWords(s[1..])
    else
      match ReadWord(s, false)
      case None => None
      case Some((word, rest)) =>
        ReadWordShrinks(s, false);
        match ReadWords(rest)
        case None => None
        case Some(words) => Some([word] + words)
  }

  predicate EndsWord(t: string) {
    t == "" || t[0] == ' '
  }

  lemma {:induction false} SafeReads(s: string, t: string)
    requires (forall i :: 0 <= i < |s| ==> IsSafeChar(s[i])) && EndsWord(t)
    ensures ReadWord(s + t, false) == Some((s, t))
  {
    if s == "" {
      assert s + t == t;
    } else {
      SafeReads(s[1..], t);
      assert (s + t)[1..] == s[1..] + t;
      assert [s[0]] + s[1..] == s;
    }
  }

  lemma QuoteStep(s: string)
    requires s != ""
    ensures ReplaceAll(s, "'", QUOTE_ESCAPE)
         == (if s[0] == '\'' then QUOTE_ESCAPE else [s[0]]) + ReplaceAll(s[1..], "'", QUOTE_ESCAPE)
  {
    assert s[..1] == [s[0]];
  }

  /** Inside quotes, an escaped quote reads as a quote. */
  lemma EscapeStep(rest: string)
    ensures ReadWord(QUOTE_ESCAPE + rest, true) == Prefix('\'', ReadWord(rest, true))
  {
    var u := QUOTE_ESCAPE + rest;
    var outside, again := u[1..], "'" + rest;
    assert outside[0] == '\\' && outside[1] == '\'' && outside[2..] == again && again[1..] == rest;
    assert ReadWord(again, false) == ReadWord(rest, true);
    assert ReadWord(outside, false) == Prefix('\'', ReadWord(again, false));
  }

  lemma {:induction false} QuotedReads(s: string, t: string)
    requires EndsWord(t)
    ensures ReadWord(ReplaceAll(s, "'", QUOTE_ESCAPE) + "'" + t, true) == Some((s, t))
  {
    var inner := ReplaceAll(s, "'", QUOTE_ESCAPE);
    var u := inner + "'" + t;
    if s == "" {
      assert u[0] == '\'' && u[1..] == t;
    } else {
      var rest := ReplaceAll(s[1..], "'", QUOTE_ESCAPE) + "'" + t;
      QuotedReads(s[1..], t);
      QuoteStep(s);
      assert [s[0]] + s[1..] == s;
      if s[0] == '\'' {
        assert u == QUOTE_ESCAPE + rest;
        EscapeStep(rest);
      } else {
        assert u == [s[0]] + rest;
        assert u[1..] == rest;
      }
    }
  }

  lemma QuoteOpens(body: string, t: string)
    requires EndsWord(t)
    ensures ReadWord("'" + body + "'" + t, false) == ReadWord(body + "'" + t, true)
  {
    var u := "'" + body + "'" + t;
    assert u[0] == '\'' && u[1..] == body + "'" + t;
  }

  /** An escaped argument reads back as one word, whatever follows behind a blank. */
  lemma EscapeReads(s: string, t: string)
    requires EndsWord(t)
    ensures ReadWord(Shellescape(s) + t, false) == Some((s, t))
    ensures Shellescape(s) != "" && Shellescape(s)[0] != ' '
  {
    if IsShellSafe(s) {
      SafeReads(s, t);
    } else {
      QuotedReads(s, t);
      QuoteOpens(ReplaceAll(s, "'", QUOTE_ESCAPE), t);
    }
  }

  lemma {:induction false} EscapedReads(args: seq<string>)
    ensures ReadWords(Escaped(args)) == Some(args)
    ensures EndsWord(Escaped(args))
  {
    if args != [] {
      EscapedReads(args[1..]);
      FirstReads(args[0], args[1..]);
      var e := Shellescape(args[0]) + Escaped(args[1..]);
      assert Escaped(args) == " " + e;
      assert (" " + e)[1..] == e;
      assert [args[0]] + args[1..] == args;
    }
  }

  lemma FirstReads(a: string, args: seq<string>)
    requires ReadWords(Escaped(args)) == Some(args) && EndsWord(Escaped(args))
    ensures ReadWords(Shellescape(a) + Escaped(args)) == Some([a] + args)
  {
    var tail := Escaped(args);
    EscapeReads(a, tail);
    assert (Shellescape(a) + tail)[0] == Shellescape(a)[0];
  }

  /** A shell reading the match string gets back exactly the command and its arguments. */
  lemma CanonicalReads(cmd: string, args: seq<string>)
    ensures ReadWords(Canonical(cmd, args)) == Some([cmd] + args)
  {
    EscapedReads(args);
    FirstReads(cmd, args);
  }

  /** Different invocations never share a match string. */
  lemma CanonicalInjective(cmd: string, args: seq<string>, cmd': string, args': seq<string>)
    ensures Canonical(cmd, args) == Canonical(cmd', args') <==> cmd == cmd' && args == args'
  {
    CanonicalReads(cmd, args);
    CanonicalReads(cmd', args');
    if Canonical(cmd, args) == Canonical(cmd', args') {
      assert ([cmd] + args)[0] == ([cmd'] + args')[0] && ([cmd] + args)[1..] == args && ([cmd'] + args')[1..] == args';
    }
  }
}
