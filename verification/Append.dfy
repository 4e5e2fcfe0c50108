/** What appending a printed rule does to the decisions of `alice exec` (cmd/alice/exec.go). */
module Append {
  import opened Wrappers
  import opened Text
  import opened Regex
  import opened ShellQuote
  import opened Rules
  import opened AutoBless

  /** The text the line goes after. */
  function Base(header: string, text: string): string {
    if text == "" then header else text
  }

  /** `appendRuleLine`: an empty file gets a header first. */
  function Appended(header: string, text: string, line: string): string {
    Base(header, text) + line + "\n"
  }

  predicate EndsLine(text: string) {
    text == "" || text[|text| - 1] == '\n'
  }

  /** A header of whole lines that are blank or comments. */
  predicate IsHeader(header: string) {
    EndsLine(header) && forall raw <- RawLines(header) :: Fits(raw) && Skipped(DropCR(raw))
  }

  /** Parts with more of them, the first of which is glued to the last one. */
  function Glue(parts: seq<string>, more: seq<string>): seq<string>
    requires parts != [] && more != []
  {
    if |parts| == 1 then [parts[0] + more[0]] + more[1..] else [parts[0]] + Glue(parts[1..], more)
  }

  lemma {:induction false} SplitGlued(a: string, b: string, sep: char)
    ensures Split(a + b, sep) == Glue(Split(a, sep), Split(b, sep))
  {
    if a == "" {
      assert a + b == b;
      GlueEmpty(Split(b, sep));
    } else {
      SplitGlued(a[1..], b, sep);
      assert (a + b)[1..] == a[1..] + b;
      var rest := Split(a[1..], sep);
      if a[0] == sep {
        assert ([""] + rest)[1..] == rest;
      } else {
        GlueFirst(a[0], rest, Split(b, sep));
      }
    }
  }

  lemma GlueEmpty(more: seq<string>)
    requires more != []
    ensures Glue([""], more) == more
  {
    assert "" + more[0] == more[0];
  }

  lemma GlueFirst(c: char, parts: seq<string>, more: seq<string>)
    requires parts != [] && more != []
    ensures var glued := Glue(parts, more);
            glued != [] && Glue([[c] + parts[0]] + parts[1..], more) == [[c] + glued[0]] + glued[1..]
  {
    assert ([[c] + parts[0]] + parts[1..])[1..] == parts[1..];
    if |parts| == 1 {
      Assoc([c], parts[0], more[0]);
    }
  }

  lemma {:induction false} GlueShape(parts: seq<string>, more: seq<string>)
    requires parts != [] && more != []
    ensures var glued, k := Glue(parts, more), |parts| - 1;
            && |glued| == k + |more|
            && glued[..k] == parts[..k] && glued[k] == parts[k] + more[0] && glued[k + 1..] == more[1..]
  {
    if |parts| > 1 {
      var rest, k := Glue(parts[1..], more), |parts| - 1;
      GlueShape(parts[1..], more);
      assert ([parts[0]] + rest)[..k] == [parts[0]] + rest[..k - 1];
      assert parts[..k] == [parts[0]] + parts[1..][..k - 1];
      assert ([parts[0]] + rest)[k + 1..] == rest[k..];
    }
  }

  lemma LineSplits(line: string)
    requires '\n' !in line
    ensures Split(line + "\n", '\n') == [line, ""]
  {
    SplitAround(line, "", '\n');
    assert line + ['\n'] + "" == line + "\n";
    SplitWhole(line, '\n');
  }

  /** The lines after an append: the line is one of its own, or is glued to an unfinished last line. */
  lemma LinesAfter(text: string, line: string)
    requires '\n' !in line
    ensures EndsLine(text) ==> RawLines(text + line + "\n") == RawLines(text) + [line]
    ensures !EndsLine(text) ==> RawLines(text) != [] && RawLines(text + line + "\n") == Glue(RawLines(text), [line])
  {
    if text == "" {
      LineSplits(line);
      assert text + line + "\n" == line + "\n";
    } else if EndsLine(text) {
      FinishedLines(text[..|text| - 1], text, line);
    } else {
      GluedLines(text, line);
    }
  }

  lemma FinishedLines(body: string, text: string, line: string)
    requires '\n' !in line && text == body + ['\n']
    ensures RawLines(text + line + "\n") == RawLines(text) + [line]
  {
    LineSplits(line);
    assert text == body + ['\n'] + "";
    SplitAround(body, "", '\n');
    assert text + line + "\n" == body + ['\n'] + (line + "\n");
    SplitAround(body, line + "\n", '\n');
  }

  lemma GluedLines(text: string, line: string)
    requires '\n' !in line && !EndsLine(text)
    ensures RawLines(text) != [] && RawLines(text + line + "\n") == Glue(RawLines(text), [line])
  {
    LastPart(text);
    SplitWhole(line, '\n');
    SplitGlued(text, line, '\n');
    assert text + line + "\n" == (text + line) + ['\n'] + "";
    SplitAround(text + line, "", '\n');
  }

  /** A line appended to a text becomes a line of its own exactly when the text is empty or ends in a
      line break. */
  lemma AppendsOneLine(text: string, line: string)
    requires '\n' !in line
    ensures RawLines(text + line + "\n") == RawLines(text) + [line] <==> EndsLine(text)
  {
    LinesAfter(text, line);
    if !EndsLine(text) {
      GlueShape(RawLines(text), [line]);
    }
  }

  /** The last part of a text that does not end in a line break is not empty. */
  lemma {:induction false} LastPart(text: string)
    requires text != "" && text[|text| - 1] != '\n'
    ensures Split(text, '\n')[|Split(text, '\n')| - 1] != ""
  {
    if |text| > 1 {
      LastPart(text[1..]);
    }
  }

  lemma ParseSnoc(e: Re2, raws: seq<string>, raw: string)
    ensures ParseLines(e, raws + [raw]) == AddLine(e, ParseLines(e, raws), raw, |raws| + 1)
  {
    assert (raws + [raw])[..|raws|] == raws;
  }

  lemma {:induction false} StoppedHasError(e: Re2, raws: seq<string>)
    ensures ParseLines(e, raws).stopped ==> ParseLines(e, raws).errs != []
  {
    if raws != [] {
      StoppedHasError(e, raws[..|raws| - 1]);
    }
  }

  lemma {:induction false} HeaderParses(e: Re2, raws: seq<string>)
    requires forall raw <- raws :: Fits(raw) && Skipped(DropCR(raw))
    ensures ParseLines(e, raws) == Parsed([], [], false)
  {
    if raws != [] {
      HeaderParses(e, raws[..|raws| - 1]);
      assert raws[|raws| - 1] in raws;
    }
  }

  lemma {:induction false} TrivialSnoc(e: Re2, rules: seq<Rule>, r: Rule)
    ensures FirstTrivial(e, rules + [r])
         == if FirstTrivial(e, rules).Some? then FirstTrivial(e, rules) else if MatchesAll(e, r) then Some(r) else None
  {
    if rules != [] {
      TrivialSnoc(e, rules[1..], r);
      assert (rules + [r])[1..] == rules[1..] + [r];
    } else {
      assert ([] + [r])[1..] == [];
    }
  }

  lemma {:induction false} FirstMatchSnoc(e: Re2, rules: seq<Rule>, r: Rule, matchStr: string, envKeys: seq<string>)
    ensures FirstMatch(e, rules + [r], matchStr, envKeys)
         == if FirstMatch(e, rules, matchStr, envKeys).Some? then FirstMatch(e, rules, matchStr, envKeys)
            else if RuleMatches(e, r, matchStr, envKeys) then Some(r) else None
  {
    if rules != [] {
      FirstMatchSnoc(e, rules[1..], r, matchStr, envKeys);
      assert (rules + [r])[1..] == rules[1..] + [r];
    } else {
      assert ([] + [r])[1..] == [];
    }
  }

  lemma SurfaceSnoc(rules: seq<Rule>, r: Rule, surface: string)
    ensures OnSurface(rules + [r], surface) == OnSurface(rules, surface) + (if surface in r.scope then [r] else [])
  {
    assert (rules + [r])[..|rules|] == rules;
  }

  /** A printed line is neither blank nor a comment and keeps its last character. */
  lemma LiteralKept(cmd: string, args: seq<string>, envKeys: seq<string>, auditLabel: string)
    requires ValidEnv(envKeys) && (auditLabel == "" || auditLabel[|auditLabel| - 1] != '\r')
    ensures var line := LiteralRule(cmd, args, envKeys, auditLabel);
            DropCR(line) == line && !Skipped(line)
  {
    var line := LiteralRule(cmd, args, envKeys, auditLabel);
    assert line[0] == '^';
    if auditLabel == "" && envKeys != [] {
      SortValid(envKeys);
      JoinNames(Sort(envKeys));
    }
    KeepsFirst(line);
  }

  lemma KeepsFirst(s: string)
    requires s != "" && !IsSpace(s[0])
    ensures TrimSpace(s) != "" && TrimSpace(s)[0] == s[0]
  {
    assert TrimLeft(s) == s;
    TrimRightKeeps(s);
  }

  lemma {:induction false} TrimRightKeeps(s: string)
    requires s != "" && !IsSpace(s[0])
    ensures TrimRight(s) != "" && TrimRight(s)[0] == s[0]
  {
    if IsSpace(s[|s| - 1]) {
      TrimRightKeeps(s[..|s| - 1]);
    }
  }

  /** How many lines the appended line comes after. */
  function LinesBefore(header: string, text: string): nat {
    |RawLines(Base(header, text))|
  }

  /** With the file's last line finished, the file still loads after the append exactly when the line
      fits the scanner, and then it has one rule more, at the end. */
  lemma LineGained(e: Re2, header: string, text: string, cmd: string, args: seq<string>, envKeys: seq<string>,
                   auditLabel: string)
    requires IsHeader(header) && EndsLine(text) && Load(e, Some(text)).Ok?
    requires ValidEnv(envKeys) && Clean(auditLabel) && (auditLabel == "" || auditLabel[|auditLabel| - 1] != '\r')
    ensures Gains(e, text, Appended(header, text, LiteralRule(cmd, args, envKeys, auditLabel)),
                  LiteralRule(cmd, args, envKeys, auditLabel),
                  BlessedRule(cmd, args, envKeys, auditLabel, LinesBefore(header, text) + 1))
  {
    var n := LinesBefore(header, text) + 1;
    AppendedLines(header, text, cmd, args, envKeys, auditLabel);
    BaseParses(e, header, text);
    LineAdds(e, Parsed(Load(e, Some(text)).value, [], false), cmd, args, envKeys, auditLabel, n);
    BlessedIsNarrow(e, cmd, args, envKeys, auditLabel, n);
    LoadsAppended(e, header, text, LiteralRule(cmd, args, envKeys, auditLabel),
                  BlessedRule(cmd, args, envKeys, auditLabel, n));
  }

  /** The new text loads exactly when the line fits, with one rule more than the old text. */
  predicate Gains(e: Re2, text: string, after: string, line: string, rule: Rule)
    requires Load(e, Some(text)).Ok?
  {
    && (Load(e, Some(after)).Ok? <==> Fits(line))
    && (Fits(line) ==> Load(e, Some(after)) == Ok(Load(e, Some(text)).value + [rule]))
  }

  lemma LoadsAppended(e: Re2, header: string, text: string, line: string, rule: Rule)
    requires Load(e, Some(text)).Ok?
    requires RawLines(Appended(header, text, line)) == RawLines(Base(header, text)) + [line]
    requires ParseLines(e, RawLines(Base(header, text))) == Parsed(Load(e, Some(text)).value, [], false)
    requires FirstTrivial(e, Load(e, Some(text)).value).None? && !MatchesAll(e, rule)
    requires Adds(e, Parsed(Load(e, Some(text)).value, [], false), line, LinesBefore(header, text) + 1, rule)
    ensures Gains(e, text, Appended(header, text, line), line, rule)
  {
    ParseSnoc(e, RawLines(Base(header, text)), line);
    TrivialSnoc(e, Load(e, Some(text)).value, rule);
  }

  /** Scanning `line` adds `rule`, or stops at a line that does not fit. */
  predicate Adds(e: Re2, p: Parsed, line: string, n: nat, rule: Rule) {
    AddLine(e, p, line, n) == if Fits(line) then p.(rules := p.rules + [rule])
                              else Parsed(p.rules, p.errs + [LineTooLong], true)
  }

  lemma AppendedLines(header: string, text: string, cmd: string, args: seq<string>, envKeys: seq<string>,
                      auditLabel: string)
    requires IsHeader(header) && EndsLine(text)
    requires ValidEnv(envKeys) && Clean(auditLabel)
    ensures var line := LiteralRule(cmd, args, envKeys, auditLabel);
            RawLines(Appended(header, text, line)) == RawLines(Base(header, text)) + [line]
  {
    LineClean(cmd, args, envKeys, auditLabel);
    AppendsOneLine(Base(header, text), LiteralRule(cmd, args, envKeys, auditLabel));
  }

  lemma BlessedIsNarrow(e: Re2, cmd: string, args: seq<string>, envKeys: seq<string>, auditLabel: string, n: nat)
    requires ValidEnv(envKeys)
    ensures !MatchesAll(e, BlessedRule(cmd, args, envKeys, auditLabel, n))
  {
    BlessedMatches(e, cmd, args, envKeys, auditLabel, n, "", []);
  }

  /** The text before the appended line parses to the rules the file had. */
  lemma BaseParses(e: Re2, header: string, text: string)
    requires IsHeader(header) && Load(e, Some(text)).Ok?
    ensures ParseLines(e, RawLines(Base(header, text))) == Parsed(Load(e, Some(text)).value, [], false)
    ensures FirstTrivial(e, Load(e, Some(text)).value).None?
  {
    StoppedHasError(e, RawLines(text));
    if text == "" {
      HeaderParses(e, RawLines(header));
      assert RawLines("") == [];
    }
  }

  /** What the printed line adds to what was parsed before it. */
  lemma LineAdds(e: Re2, p: Parsed, cmd: string, args: seq<string>, envKeys: seq<string>, auditLabel: string, n: nat)
    requires !p.stopped
    requires ValidEnv(envKeys) && Clean(auditLabel) && (auditLabel == "" || auditLabel[|auditLabel| - 1] != '\r')
    ensures Adds(e, p, LiteralRule(cmd, args, envKeys, auditLabel), n, BlessedRule(cmd, args, envKeys, auditLabel, n))
  {
    LiteralKept(cmd, args, envKeys, auditLabel);
    LiteralParses(e, cmd, args, envKeys, auditLabel, n);
    ParsedAdds(e, p, LiteralRule(cmd, args, envKeys, auditLabel), n, BlessedRule(cmd, args, envKeys, auditLabel, n));
  }

  lemma ParsedAdds(e: Re2, p: Parsed, line: string, n: nat, rule: Rule)
    requires !p.stopped && DropCR(line) == line && !Skipped(line) && ParseLine(e, line, n) == Ok(rule)
    ensures Adds(e, p, line, n, rule)
  {}

  // ---------- an unfinished last line ----------

  /** Every rule comes from a line of the text. */
  lemma {:induction false} LineNumbers(e: Re2, raws: seq<string>)
    ensures forall r <- ParseLines(e, raws).rules :: r.lineNo <= |raws|
  {
    if raws != [] {
      LineNumbers(e, raws[..|raws| - 1]);
      AddsAtMost(e, ParseLines(e, raws[..|raws| - 1]), raws[|raws| - 1], |raws|);
    }
  }

  /** A line adds at most one rule, with its own number. */
  lemma AddsAtMost(e: Re2, p: Parsed, raw: string, n: nat)
    ensures var q := AddLine(e, p, raw, n);
            q.rules == p.rules || (q.rules != [] && q.rules[..|q.rules| - 1] == p.rules
                                   && q.rules[|q.rules| - 1].lineNo == n)
  {
    var r := ParseLine(e, DropCR(raw), n);
    if r.Ok? {
      assert (p.rules + [r.value])[..|p.rules|] == p.rules;
    }
  }

  lemma LoadedNumbers(e: Re2, text: string)
    ensures Load(e, Some(text)).Ok? ==> forall r <- Load(e, Some(text)).value :: r.lineNo <= |RawLines(text)|
  {
    LineNumbers(e, RawLines(text));
  }

  /** A rule with the number of a line that is not there is not loaded. */
  lemma GluedNotThere(e: Re2, text: string, line: string, rule: Rule)
    requires !EndsLine(text) && '\n' !in line && rule.lineNo == |RawLines(text)| + 1
    ensures Load(e, Some(text + line + "\n")).Ok? ==> rule !in Load(e, Some(text + line + "\n")).value
  {
    LinesAfter(text, line);
    GlueShape(RawLines(text), [line]);
    LoadedNumbers(e, text + line + "\n");
  }

  /** The file still loads with exactly the printed rule added if and only if its last line was
      finished and the printed line fits the scanner. */
  lemma AppendLoads(e: Re2, header: string, text: string, cmd: string, args: seq<string>, envKeys: seq<string>,
                    auditLabel: string)
    requires IsHeader(header) && Load(e, Some(text)).Ok?
    requires ValidEnv(envKeys) && Clean(auditLabel) && (auditLabel == "" || auditLabel[|auditLabel| - 1] != '\r')
    ensures var line := LiteralRule(cmd, args, envKeys, auditLabel);
            var rule := BlessedRule(cmd, args, envKeys, auditLabel, LinesBefore(header, text) + 1);
            Load(e, Some(Appended(header, text, line))) == Ok(Load(e, Some(text)).value + [rule])
            <==> EndsLine(text) && Fits(line)
  {
    if EndsLine(text) {
      LineGained(e, header, text, cmd, args, envKeys, auditLabel);
    } else {
      LineClean(cmd, args, envKeys, auditLabel);
      GluedNotThere(e, text, LiteralRule(cmd, args, envKeys, auditLabel),
                    BlessedRule(cmd, args, envKeys, auditLabel, LinesBefore(header, text) + 1));
      LastIn(Load(e, Some(text)).value, BlessedRule(cmd, args, envKeys, auditLabel, LinesBefore(header, text) + 1));
    }
  }

  lemma LastIn(rules: seq<Rule>, rule: Rule)
    ensures rule in rules + [rule]
  {}

  /** The lines before the last one decide as before, whatever becomes of the last line. */
  lemma FrontDecides(e: Re2, front: seq<Rule>, rules: seq<Rule>, surface: string, matchStr: string, env: seq<string>)
    requires rules == front || (rules != [] && rules[..|rules| - 1] == front)
    ensures var first := FirstMatch(e, OnSurface(front, surface), matchStr, env);
            var all := FirstMatch(e, OnSurface(rules, surface), matchStr, env);
            && (first.Some? ==> all == first)
            && (first.None? && all.Some? ==> rules != front && all.value == rules[|rules| - 1])
  {
    if rules != front {
      var last := rules[|rules| - 1];
      assert rules == front + [last];
      SurfaceSnoc(front, last, surface);
      var here := OnSurface(front, surface);
      if surface in last.scope {
        FirstMatchSnoc(e, here, last, matchStr, env);
      } else {
        assert here + [] == here;
      }
    }
  }

  lemma FrontOf(e: Re2, raws: seq<string>)
    requires raws != []
    ensures var front, all := ParseLines(e, raws[..|raws| - 1]).rules, ParseLines(e, raws).rules;
            all == front || (all != [] && all[..|all| - 1] == front && all[|all| - 1].lineNo == |raws|)
  {
    AddsAtMost(e, ParseLines(e, raws[..|raws| - 1]), raws[|raws| - 1], |raws|);
  }

  lemma EarlierDecides(e: Re2, raws: seq<string>, surface: string, matchStr: string, env: seq<string>)
    requires raws != []
    ensures var first := FirstMatch(e, OnSurface(ParseLines(e, raws[..|raws| - 1]).rules, surface), matchStr, env);
            var all := FirstMatch(e, OnSurface(ParseLines(e, raws).rules, surface), matchStr, env);
            && (first.Some? ==> all == first)
            && (all.Some? && all.value.lineNo < |raws| ==> all == first)
  {
    FrontOf(e, raws);
    FrontDecides(e, ParseLines(e, raws[..|raws| - 1]).rules, ParseLines(e, raws).rules, surface, matchStr, env);
  }

  /** When the line is glued to an unfinished last line, what earlier lines decide stays. */
  lemma GluedKeeps(e: Re2, text: string, line: string, surface: string, cmd: string, args: seq<string>,
                   env: seq<string>)
    requires !EndsLine(text) && '\n' !in line && Load(e, Some(text)).Ok? && Load(e, Some(text + line + "\n")).Ok?
    requires var before := Decide(e, Some(text), surface, cmd, args, env).value;
             before.Some? && before.value.lineNo < |RawLines(text)|
    ensures Decide(e, Some(text + line + "\n"), surface, cmd, args, env)
            == Decide(e, Some(text), surface, cmd, args, env)
  {
    var raws, glued := RawLines(text), RawLines(text + line + "\n");
    LinesAfter(text, line);
    GlueShape(raws, [line]);
    EarlierDecides(e, raws, surface, Canonical(cmd, args), env);
    EarlierDecides(e, glued, surface, Canonical(cmd, args), env);
  }
}
