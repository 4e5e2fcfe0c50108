/** What appending a printed rule does to a rules file whose last line has no line break: the two lines
    become one (cmd/alice/exec.go, internal/aclrules/aclrules.go). */
module Unfinished {
  import opened Wrappers
  import opened Text
  import opened Regex
  import opened ShellQuote
  import opened Rules
  import opened AutoBless
  import opened Append

  function LastRaw(text: string): string {
    var raws := RawLines(text);
    if raws == [] then "" else raws[|raws| - 1]
  }

  /** The rules of all lines but the last. */
  function FrontRules(e: Re2, text: string): seq<Rule> {
    var raws := RawLines(text);
    if raws == [] then [] else ParseLines(e, raws[..|raws| - 1]).rules
  }

  predicate IsComment(raw: string) {
    TrimLeft(raw) != "" && TrimLeft(raw)[0] == '#'
  }

  /** The rule of an unfinished line without tabs that a printed rule was glued to. */
  function GluedRule(last: string, cmd: string, args: seq<string>, envKeys: seq<string>, auditLabel: string,
                     lineNo: nat): Rule
  {
    Rule(Anchored(last + ("^" + LiteralBody(Canonical(cmd, args)) + "$")), Sort(envKeys), false, TrimSpace(auditLabel),
         ["cli"], lineNo, last + LiteralRule(cmd, args, envKeys, auditLabel))
  }

  // ---------- blank or comment ----------

  lemma {:induction false} TrimLeftConcat(a: string, b: string)
    ensures TrimLeft(a + b) == if TrimLeft(a) == "" then TrimLeft(b) else TrimLeft(a) + b
  {
    if a == "" {
      assert a + b == b;
    } else if IsSpace(a[0]) {
      TrimLeftConcat(a[1..], b);
      assert (a + b)[1..] == a[1..] + b;
    }
  }

  lemma SkippedIs(s: string)
    ensures Skipped(s) <==> TrimLeft(s) == "" || IsComment(s)
  {
    if TrimLeft(s) != "" {
      TrimRightKeeps(TrimLeft(s));
    }
  }

  /** With a printed rule glued to it, a comment stays one, and no other line is skipped. */
  lemma SkippedGlued(last: string, line: string)
    requires line != "" && line[0] == '^' && line[|line| - 1] != '\r'
    ensures DropCR(last + line) == last + line
    ensures Skipped(last + line) <==> IsComment(last)
  {
    TrimLeftConcat(last, line);
    SkippedIs(last + line);
  }

  lemma CommentSkipped(raw: string)
    requires IsComment(raw)
    ensures Skipped(DropCR(raw))
  {
    var s := DropCR(raw);
    if s != raw {
      assert raw == s + "\r";
      TrimLeftConcat(s, "\r");
      assert TrimLeft("\r") == "" by {
        assert "\r"[1..] == "";
      }
    }
    SkippedIs(s);
  }

  // ---------- columns ----------

  lemma {:induction false} TrimLeftHolds(s: string, c: char)
    requires c in s && !IsSpace(c)
    ensures c in TrimLeft(s)
  {
    if IsSpace(s[0]) {
      assert s == [s[0]] + s[1..];
      TrimLeftHolds(s[1..], c);
    }
  }

  lemma {:induction false} TrimRightHolds(s: string, c: char)
    requires c in s && !IsSpace(c)
    ensures c in TrimRight(s)
  {
    if IsSpace(s[|s| - 1]) {
      assert s == s[..|s| - 1] + [s[|s| - 1]];
      TrimRightHolds(s[..|s| - 1], c);
    }
  }

  lemma TrimHolds(s: string, c: char)
    requires c in s && !IsSpace(c)
    ensures c in TrimSpace(s)
  {
    TrimLeftHolds(s, c);
    TrimRightHolds(TrimLeft(s), c);
  }

  lemma {:induction false} InSomePart(s: string, sep: char, c: char) returns (i: nat)
    requires c in s && c != sep
    ensures i < |Split(s, sep)| && c in Split(s, sep)[i]
  {
    if s[0] == c {
      i := 0;
    } else {
      assert s == [s[0]] + s[1..];
      i := InSomePart(s[1..], sep, c);
      if s[0] == sep {
        i := i + 1;
      }
    }
  }

  /** No column of names holds an anchor. */
  lemma CaretRefused(col: string, lineNo: nat)
    requires '^' in col
    ensures EnvColumn(col, lineNo).Err?
  {
    var c := TrimSpace(col);
    TrimHolds(col, '^');
    var i := InSomePart(c, ',', '^');
    var names := Trimmed(Split(c, ','));
    TrimHolds(Split(c, ',')[i], '^');
    assert names[i] in names && !IsEnvName(names[i]);
  }

  lemma {:induction false} SplitMore(s: string, sep: char)
    requires sep in s
    ensures |Split(s, sep)| > 1
  {
    if s[0] != sep {
      assert s == [s[0]] + s[1..];
      SplitMore(s[1..], sep);
    }
  }

  // ---------- the glued line ----------

  lemma GluedFields(last: string, cmd: string, args: seq<string>, envKeys: seq<string>, auditLabel: string)
    requires ValidEnv(envKeys) && Clean(auditLabel)
    ensures var own, more := Split(last, '\t'), LiteralFields(cmd, args, envKeys, auditLabel);
            var fields, k := Split(last + LiteralRule(cmd, args, envKeys, auditLabel), '\t'), |own| - 1;
            && |fields| == k + |more|
            && fields[..k] == own[..k] && fields[k] == own[k] + more[0] && fields[k + 1..] == more[1..]
  {
    LineClean(cmd, args, envKeys, auditLabel);
    SplitGlued(last, LiteralRule(cmd, args, envKeys, auditLabel), '\t');
    GlueShape(Split(last, '\t'), LiteralFields(cmd, args, envKeys, auditLabel));
  }

  /** Glued to a line without tabs, the printed line widens its pattern and adds its own columns. */
  lemma ParsesWithoutTab(e: Re2, last: string, cmd: string, args: seq<string>, envKeys: seq<string>, auditLabel: string,
                         n: nat)
    requires ValidEnv(envKeys) && Clean(auditLabel) && '\t' !in last
    ensures var rule := GluedRule(last, cmd, args, envKeys, auditLabel, n);
            ParseLine(e, last + LiteralRule(cmd, args, envKeys, auditLabel), n)
            == if e.compiles(rule.regex) then Ok(rule) else Err(BadRegex(n))
  {
    var line, more := LiteralRule(cmd, args, envKeys, auditLabel), LiteralFields(cmd, args, envKeys, auditLabel);
    SplitWhole(last, '\t');
    GluedFields(last, cmd, args, envKeys, auditLabel);
    var fields := Split(last + line, '\t');
    assert fields == [last + more[0]] + more[1..];
    if e.compiles(Anchored(fields[0])) {
      EnvReads(fields, envKeys, n);
      LabelReads(fields, auditLabel, n);
      ScopeDefault(n);
      Assembled(e, last + line, fields, Sort(envKeys), TrimSpace(auditLabel), n);
    }
  }

  /** Glued to a line with tabs, a labelled line makes no rule: the pattern falls into the column of
      names, or there are too many columns. */
  lemma ParsesNotWithTab(e: Re2, last: string, cmd: string, args: seq<string>, envKeys: seq<string>, auditLabel: string,
                         n: nat)
    requires ValidEnv(envKeys) && Clean(auditLabel) && auditLabel != "" && '\t' in last
    ensures ParseLine(e, last + LiteralRule(cmd, args, envKeys, auditLabel), n).Err?
  {
    var own, more := Split(last, '\t'), LiteralFields(cmd, args, envKeys, auditLabel);
    SplitMore(last, '\t');
    GluedFields(last, cmd, args, envKeys, auditLabel);
    if |own| == 2 {
      var col := own[1] + more[0];
      assert col[|own[1]|] == '^';
      CaretRefused(col, n);
    }
  }

  /** The lines before the last one are good and not trivial in a file that loads. */
  lemma FrontLoads(e: Re2, text: string)
    requires Load(e, Some(text)).Ok? && RawLines(text) != []
    ensures var raws := RawLines(text);
            ParseLines(e, raws[..|raws| - 1]) == Parsed(FrontRules(e, text), [], false)
    ensures FirstTrivial(e, FrontRules(e, text)).None?
  {
    var raws := RawLines(text);
    StoppedHasError(e, raws[..|raws| - 1]);
    FrontOf(e, raws);
    var front, all := FrontRules(e, text), ParseLines(e, raws).rules;
    if all != front {
      assert all == front + [all[|all| - 1]];
      TrivialSnoc(e, front, all[|all| - 1]);
    }
  }

  /** Whether the file still loads with the printed line glued to its unfinished last line. */
  predicate GluedFits(e: Re2, last: string, line: string, rule: Rule) {
    Fits(last + line) && (IsComment(last) || ('\t' !in last && e.compiles(rule.regex) && !MatchesAll(e, rule)))
  }

  /** One line more over good lines. */
  lemma OneLineMore(e: Re2, text: string, after: string, glued: string)
    requires Load(e, Some(text)).Ok? && RawLines(text) != []
    requires var raws := RawLines(text); RawLines(after) == raws[..|raws| - 1] + [glued]
    ensures ParseLines(e, RawLines(after))
            == AddLine(e, Parsed(FrontRules(e, text), [], false), glued, |RawLines(text)|)
  {
    var raws := RawLines(text);
    FrontLoads(e, text);
    ParseSnoc(e, raws[..|raws| - 1], glued);
  }

  lemma AfterGlue(text: string, line: string)
    requires !EndsLine(text) && '\n' !in line
    ensures var raws := RawLines(text);
            raws != [] && RawLines(text + line + "\n") == raws[..|raws| - 1] + [LastRaw(text) + line]
  {
    LinesAfter(text, line);
    GlueOne(RawLines(text), line);
  }

  lemma GlueOne(parts: seq<string>, b: string)
    requires parts != []
    ensures Glue(parts, [b]) == parts[..|parts| - 1] + [parts[|parts| - 1] + b]
  {
    GlueShape(parts, [b]);
    TakeSnoc(Glue(parts, [b]), |parts| - 1);
    TakeAll(Glue(parts, [b]));
  }

  lemma PrintedEnds(cmd: string, args: seq<string>, envKeys: seq<string>, auditLabel: string)
    requires ValidEnv(envKeys) && (auditLabel == "" || auditLabel[|auditLabel| - 1] != '\r')
    ensures var line := LiteralRule(cmd, args, envKeys, auditLabel);
            line != "" && line[0] == '^' && line[|line| - 1] != '\r'
  {
    LiteralKept(cmd, args, envKeys, auditLabel);
  }

  lemma GluedAdds(e: Re2, front: seq<Rule>, last: string, cmd: string, args: seq<string>, envKeys: seq<string>,
                  auditLabel: string, n: nat)
    requires ValidEnv(envKeys) && Clean(auditLabel) && auditLabel != "" && auditLabel[|auditLabel| - 1] != '\r'
    ensures var glued := last + LiteralRule(cmd, args, envKeys, auditLabel);
            var rule := GluedRule(last, cmd, args, envKeys, auditLabel, n);
            var q := AddLine(e, Parsed(front, [], false), glued, n);
            && (q.errs == [] <==> Fits(glued) && (IsComment(last) || ('\t' !in last && e.compiles(rule.regex))))
            && (q.errs == [] ==> q.rules == if IsComment(last) then front else front + [rule])
  {
    PrintedEnds(cmd, args, envKeys, auditLabel);
    SkippedGlued(last, LiteralRule(cmd, args, envKeys, auditLabel));
    if '\t' in last {
      ParsesNotWithTab(e, last, cmd, args, envKeys, auditLabel, n);
    } else {
      ParsesWithoutTab(e, last, cmd, args, envKeys, auditLabel, n);
    }
  }

  lemma CommentLast(e: Re2, text: string)
    requires Load(e, Some(text)).Ok? && RawLines(text) != [] && IsComment(LastRaw(text))
    ensures Load(e, Some(text)).value == FrontRules(e, text)
  {
    FrontLoads(e, text);
    CommentSkipped(LastRaw(text));
  }

  /** What a labelled append makes of a file whose last line is unfinished. A comment swallows the
      line. Any other last line becomes one line with it, and the file loads only if that line has no
      tab before the glue, fits the scanner and holds a pattern that compiles and is not trivial; the
      last rule is then the glued one. */
  lemma UnfinishedLoads(e: Re2, text: string, cmd: string, args: seq<string>, envKeys: seq<string>, auditLabel: string)
    requires !EndsLine(text) && Load(e, Some(text)).Ok?
    requires ValidEnv(envKeys) && Clean(auditLabel) && auditLabel != "" && auditLabel[|auditLabel| - 1] != '\r'
    ensures var line, last := LiteralRule(cmd, args, envKeys, auditLabel), LastRaw(text);
            var rule := GluedRule(last, cmd, args, envKeys, auditLabel, |RawLines(text)|);
            var after := Load(e, Some(text + line + "\n"));
            && (after.Ok? <==> GluedFits(e, last, line, rule))
            && (after.Ok? ==>
                  after.value == if IsComment(last) then FrontRules(e, text) else FrontRules(e, text) + [rule])
            && (IsComment(last) ==> Load(e, Some(text)).value == FrontRules(e, text))
  {
    var line, last, n := LiteralRule(cmd, args, envKeys, auditLabel), LastRaw(text), |RawLines(text)|;
    var front, rule := FrontRules(e, text), GluedRule(last, cmd, args, envKeys, auditLabel, n);
    LineClean(cmd, args, envKeys, auditLabel);
    AfterGlue(text, line);
    OneLineMore(e, text, text + line + "\n", last + line);
    GluedAdds(e, front, last, cmd, args, envKeys, auditLabel, n);
    FrontLoads(e, text);
    TrivialSnoc(e, front, rule);
    if IsComment(last) {
      CommentLast(e, text);
    }
  }

  /** The glued rule allows what the engine lets its pattern match, with names among the blessed ones. */
  lemma GluedMatches(e: Re2, last: string, cmd: string, args: seq<string>, envKeys: seq<string>, auditLabel: string,
                     n: nat, matchStr: string, env: seq<string>)
    ensures var rule := GluedRule(last, cmd, args, envKeys, auditLabel, n);
            RuleMatches(e, rule, matchStr, env) <==> e.matches(rule.regex, matchStr) && forall k <- env :: k in envKeys
  {
    SortKeeps(envKeys);
    if env != [] && forall k <- env :: k in envKeys {
      assert env[0] in Sort(envKeys);
    }
  }

  /** A decision after a labelled append to an unfinished last line: there is one exactly when the file
      still loads; the earlier lines then decide as before, and what they do not allow is allowed by
      the glued rule or not at all. */
  predicate DecidedByGlue(e: Re2, text: string, cmd: string, args: seq<string>, envKeys: seq<string>,
                          auditLabel: string, surface: string, matchStr: string, env: seq<string>,
                          after: Result<Option<Rule>, LoadError>)
  {
    var last := LastRaw(text);
    var rule := GluedRule(last, cmd, args, envKeys, auditLabel, |RawLines(text)|);
    var first := FirstMatch(e, OnSurface(FrontRules(e, text), surface), matchStr, env);
    && (after.Ok? <==> GluedFits(e, last, LiteralRule(cmd, args, envKeys, auditLabel), rule))
    && (after.Ok? ==>
          after.value == if first.Some? then first
                         else if !IsComment(last) && surface == "cli" && e.matches(rule.regex, matchStr)
                                 && (forall k <- env :: k in envKeys) then Some(rule)
                         else None)
  }

  lemma UnfinishedDecides(e: Re2, text: string, cmd: string, args: seq<string>, envKeys: seq<string>,
                          auditLabel: string, surface: string, cmd': string, args': seq<string>, env: seq<string>)
    requires !EndsLine(text) && Load(e, Some(text)).Ok?
    requires ValidEnv(envKeys) && Clean(auditLabel) && auditLabel != "" && auditLabel[|auditLabel| - 1] != '\r'
    ensures var line := LiteralRule(cmd, args, envKeys, auditLabel);
            DecidedByGlue(e, text, cmd, args, envKeys, auditLabel, surface, Canonical(cmd', args'), env,
                          Decide(e, Some(text + line + "\n"), surface, cmd', args', env))
  {
    var last, n := LastRaw(text), |RawLines(text)|;
    var front, rule := FrontRules(e, text), GluedRule(last, cmd, args, envKeys, auditLabel, n);
    UnfinishedLoads(e, text, cmd, args, envKeys, auditLabel);
    GluedMatches(e, last, cmd, args, envKeys, auditLabel, n, Canonical(cmd', args'), env);
    SurfaceSnoc(front, rule, surface);
    FirstMatchSnoc(e, OnSurface(front, surface), rule, Canonical(cmd', args'), env);
    assert OnSurface(front, surface) + [] == OnSurface(front, surface);
  }

  /** A line glued to a comment is a comment: the file stays as it was. */
  lemma GluedToComment(e: Re2, text: string, line: string)
    requires !EndsLine(text) && '\n' !in line && Load(e, Some(text)).Ok?
    requires IsComment(LastRaw(text)) && Fits(LastRaw(text) + line)
    ensures Load(e, Some(text + line + "\n")) == Load(e, Some(text))
  {
    var last := LastRaw(text);
    AfterGlue(text, line);
    OneLineMore(e, text, text + line + "\n", last + line);
    FrontLoads(e, text);
    CommentLast(e, text);
    TrimLeftConcat(last, line);
    CommentSkipped(last + line);
  }

  // ---------- two files ----------

  /** After a printed line without its line break, as an editor may leave it, one more blessing breaks the
      file: no invocation at all is allowed any more. */
  lemma PrintedThenBroken(e: Re2, prior: string, cmd0: string, args0: seq<string>, env0: seq<string>, label0: string,
                          cmd: string, args: seq<string>, envKeys: seq<string>, auditLabel: string,
                          surface: string, cmd': string, args': seq<string>, env: seq<string>)
    requires EndsLine(prior) && ValidEnv(env0) && Clean(label0) && label0 != ""
    requires Load(e, Some(prior + LiteralRule(cmd0, args0, env0, label0))).Ok?
    requires ValidEnv(envKeys) && Clean(auditLabel) && auditLabel != "" && auditLabel[|auditLabel| - 1] != '\r'
    ensures var text := prior + LiteralRule(cmd0, args0, env0, label0);
            Decide(e, Some(text + LiteralRule(cmd, args, envKeys, auditLabel) + "\n"), surface, cmd', args', env).Err?
  {
    var last := LiteralRule(cmd0, args0, env0, label0);
    var text := prior + last;
    LineClean(cmd0, args0, env0, label0);
    PrintedTabs(cmd0, args0, env0, label0);
    PrintedLast(prior, last);
    UnfinishedDecides(e, text, cmd, args, envKeys, auditLabel, surface, cmd', args', env);
  }

  lemma PrintedTabs(cmd: string, args: seq<string>, envKeys: seq<string>, auditLabel: string)
    requires ValidEnv(envKeys) && Clean(auditLabel) && auditLabel != ""
    ensures var line := LiteralRule(cmd, args, envKeys, auditLabel);
            line != "" && '\t' in line && !IsComment(line)
  {
    var line := LiteralRule(cmd, args, envKeys, auditLabel);
    assert line[0] == '^' && TrimLeft(line) == line;
    LineClean(cmd, args, envKeys, auditLabel);
    if '\t' !in line {
      SplitWhole(line, '\t');
    }
  }

  lemma PrintedLast(prior: string, last: string)
    requires EndsLine(prior) && '\n' !in last && last != ""
    ensures LastRaw(prior + last) == last && !EndsLine(prior + last)
  {
    assert last[|last| - 1] in last;
    SplitWhole(last, '\n');
    if prior == "" {
      assert prior + last == last;
    } else {
      var body := prior[..|prior| - 1];
      assert prior + last == body + ['\n'] + last;
      SplitAround(body, last, '\n');
    }
  }

  /** After an unfinished comment, the blessing is swallowed and every invocation is still denied. */
  lemma NoteSwallows(e: Re2, header: string, text: string, cmd: string, args: seq<string>, envKeys: seq<string>,
                     auditLabel: string)
    requires text == "# note" && ValidEnv(envKeys) && Clean(auditLabel)
    requires Fits("# note" + LiteralRule(cmd, args, envKeys, auditLabel))
    ensures Decide(e, Some(Appended(header, text, LiteralRule(cmd, args, envKeys, auditLabel))), "cli", cmd, args,
                   envKeys) == Ok(None)
  {
    LineClean(cmd, args, envKeys, auditLabel);
    NoteLoads(e, text);
    GluedToComment(e, text, LiteralRule(cmd, args, envKeys, auditLabel));
  }

  lemma NoteLoads(e: Re2, text: string)
    requires text == "# note"
    ensures RawLines(text) == [text] && !EndsLine(text) && IsComment(text) && Load(e, Some(text)) == Ok([])
  {
    SplitWhole(text, '\n');
    CommentSkipped(text);
    Utf8Short(text);
    assert [text][..0] == [];
    assert ParseLines(e, [text]) == Parsed([], [], false);
  }

  lemma {:induction false} Utf8Short(s: string)
    ensures Utf8Len(s) <= 4 * |s|
  {
    if s != "" {
      Utf8Short(s[1..]);
    }
  }
}
