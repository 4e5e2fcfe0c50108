/** What auto-bless does to the decisions of `alice exec` (cmd/alice/exec.go). */
module Bless {
  import opened Wrappers
  import opened Regex
  import opened ShellQuote
  import opened Rules
  import opened AutoBless
  import opened Append
  import opened Unfinished

  /** With the file's last line finished and a line that fits, auto-bless widens by exactly one
      invocation: earlier first matches stay, and otherwise an invocation is newly allowed only on the
      cli surface, only for the same command and arguments, and only with names among the blessed ones. */
  lemma BlessWidens(e: Re2, header: string, text: string, cmd: string, args: seq<string>, envKeys: seq<string>,
                    auditLabel: string, surface: string, cmd': string, args': seq<string>, env': seq<string>)
    requires IsHeader(header) && EndsLine(text) && Load(e, Some(text)).Ok?
    requires ValidEnv(envKeys) && Clean(auditLabel) && (auditLabel == "" || auditLabel[|auditLabel| - 1] != '\r')
    requires Fits(LiteralRule(cmd, args, envKeys, auditLabel))
    ensures var before := Decide(e, Some(text), surface, cmd', args', env');
            var rule := BlessedRule(cmd, args, envKeys, auditLabel, LinesBefore(header, text) + 1);
            var after := Decide(e, Some(Appended(header, text, LiteralRule(cmd, args, envKeys, auditLabel))), surface,
                                cmd', args', env');
            && before.Ok?
            && after == Ok(
                 if before.value.Some? then before.value
                 else if surface == "cli" && cmd' == cmd && args' == args && (forall k <- env' :: k in envKeys)
                      then Some(rule)
                 else None)
  {
    var n := LinesBefore(header, text) + 1;
    var rule := BlessedRule(cmd, args, envKeys, auditLabel, n);
    var rules := Load(e, Some(text)).value;
    LineGained(e, header, text, cmd, args, envKeys, auditLabel);
    SurfaceSnoc(rules, rule, surface);
    var matchStr := Canonical(cmd', args');
    BlessedMatches(e, cmd, args, envKeys, auditLabel, n, matchStr, env');
    CanonicalInjective(cmd', args', cmd, args);
    var old' := OnSurface(rules, surface);
    if surface in rule.scope {
      FirstMatchSnoc(e, old', rule, matchStr, env');
    } else {
      assert old' + [] == old';
    }
  }

  /** What an append does to any decision of a file that loads. A finished last line and a line that
      fits: exactly the blessed invocation is added. A finished last line and a line that does not fit:
      the file no longer loads. An unfinished last line: no decision is ever the printed rule, and what
      each decision is for a labelled line says DecidedByGlue. */
  lemma BlessExactly(e: Re2, header: string, text: string, cmd: string, args: seq<string>, envKeys: seq<string>,
                     auditLabel: string, surface: string, cmd': string, args': seq<string>, env': seq<string>)
    requires IsHeader(header) && Load(e, Some(text)).Ok?
    requires ValidEnv(envKeys) && Clean(auditLabel) && (auditLabel == "" || auditLabel[|auditLabel| - 1] != '\r')
    ensures var line := LiteralRule(cmd, args, envKeys, auditLabel);
            var before := Decide(e, Some(text), surface, cmd', args', env');
            var rule := BlessedRule(cmd, args, envKeys, auditLabel, LinesBefore(header, text) + 1);
            var after := Decide(e, Some(Appended(header, text, line)), surface, cmd', args', env');
            && before.Ok?
            && (EndsLine(text) && Fits(line) ==>
                  after == Ok(
                    if before.value.Some? then before.value
                    else if surface == "cli" && cmd' == cmd && args' == args && (forall k <- env' :: k in envKeys)
                         then Some(rule)
                    else None))
            && (EndsLine(text) && !Fits(line) ==> after.Err?)
            && (!EndsLine(text) && after.Ok? ==> after.value != Some(rule))
            && (!EndsLine(text) && after.Ok? && before.value.Some? && before.value.value.lineNo < |RawLines(text)| ==>
                  after == before)
            && (!EndsLine(text) && auditLabel != "" ==>
                  DecidedByGlue(e, text, cmd, args, envKeys, auditLabel, surface, Canonical(cmd', args'), env', after))
  {
    var line := LiteralRule(cmd, args, envKeys, auditLabel);
    if EndsLine(text) {
      LineGained(e, header, text, cmd, args, envKeys, auditLabel);
      if Fits(line) {
        BlessWidens(e, header, text, cmd, args, envKeys, auditLabel, surface, cmd', args', env');
      }
    } else {
      LineClean(cmd, args, envKeys, auditLabel);
      GluedDecides(e, text, line, BlessedRule(cmd, args, envKeys, auditLabel, LinesBefore(header, text) + 1),
                   surface, cmd', args', env');
      if auditLabel != "" {
        UnfinishedDecides(e, text, cmd, args, envKeys, auditLabel, surface, cmd', args', env');
      }
    }
  }

  lemma GluedDecides(e: Re2, text: string, line: string, rule: Rule, surface: string, cmd: string, args: seq<string>,
                     env: seq<string>)
    requires !EndsLine(text) && '\n' !in line && rule.lineNo == |RawLines(text)| + 1 && Load(e, Some(text)).Ok?
    ensures var before := Decide(e, Some(text), surface, cmd, args, env);
            var after := Decide(e, Some(text + line + "\n"), surface, cmd, args, env);
            && (after.Ok? ==> after.value != Some(rule))
            && (after.Ok? && before.value.Some? && before.value.value.lineNo < |RawLines(text)| ==> after == before)
  {
    var after := text + line + "\n";
    if Load(e, Some(after)).Ok? {
      GluedNotThere(e, text, line, rule);
      AllowedExactly(e, Some(after), surface, cmd, args, env);
      var before := Decide(e, Some(text), surface, cmd, args, env);
      if before.value.Some? && before.value.value.lineNo < |RawLines(text)| {
        GluedKeeps(e, text, line, surface, cmd, args, env);
      }
    }
  }

  /** The blessing takes effect exactly when the file's last line was finished and the printed line
      fits: for an invocation that was not allowed before, the gate then decides by the printed rule. */
  lemma BlessTakes(e: Re2, header: string, text: string, cmd: string, args: seq<string>, envKeys: seq<string>,
                   auditLabel: string)
    requires IsHeader(header) && Load(e, Some(text)).Ok? && Decide(e, Some(text), "cli", cmd, args, envKeys) == Ok(None)
    requires ValidEnv(envKeys) && Clean(auditLabel) && (auditLabel == "" || auditLabel[|auditLabel| - 1] != '\r')
    ensures var line := LiteralRule(cmd, args, envKeys, auditLabel);
            var rule := BlessedRule(cmd, args, envKeys, auditLabel, LinesBefore(header, text) + 1);
            Decide(e, Some(Appended(header, text, line)), "cli", cmd, args, envKeys) == Ok(Some(rule))
            <==> EndsLine(text) && Fits(line)
  {
    BlessExactly(e, header, text, cmd, args, envKeys, auditLabel, "cli", cmd, args, envKeys);
  }
}
