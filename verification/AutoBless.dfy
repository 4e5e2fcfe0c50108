/** Printing a rule for exactly one invocation and appending it to the rules file
    (internal/aclrules/aclrules.go's LiteralRule, cmd/alice/exec.go). */
module AutoBless {
  import opened Wrappers
  import opened Text
  import opened Regex
  import opened ShellQuote
  import opened Rules

  // ---------- sorting the names ----------

  /** The order of `sort.Strings`. */
  predicate AtMost(a: string, b: string) {
    a == "" || (b != "" && (a[0] < b[0] || (a[0] == b[0] && AtMost(a[1..], b[1..]))))
  }

  function Insert(name: string, sorted: seq<string>): seq<string> {
    if sorted == [] then [name]
    else if AtMost(name, sorted[0]) then [name] + sorted
    else [sorted[0]] + Insert(name, sorted[1..])
  }

  /** `sort.Strings`. */
  function Sort(names: seq<string>): seq<string> {
    if names == [] then [] else Insert(names[0], Sort(names[1..]))
  }

  lemma {:induction false} InsertKeeps(name: string, sorted: seq<string>)
    ensures forall n :: n in Insert(name, sorted) <==> n == name || n in sorted
  {
    if sorted != [] {
      InsertKeeps(name, sorted[1..]);
      assert sorted == [sorted[0]] + sorted[1..];
    }
  }

  lemma {:induction false} SortKeeps(names: seq<string>)
    ensures forall n :: n in Sort(names) <==> n in names
  {
    if names != [] {
      SortKeeps(names[1..]);
      InsertKeeps(names[0], Sort(names[1..]));
      assert names == [names[0]] + names[1..];
    }
  }

  lemma {:induction false} AtMostTotal(a: string, b: string)
    ensures AtMost(a, b) || AtMost(b, a)
  {
    if a != "" && b != "" {
      AtMostTotal(a[1..], b[1..]);
    }
  }

  lemma {:induction false} AtMostTransitive(a: string, b: string, c: string)
    requires AtMost(a, b) && AtMost(b, c)
    ensures AtMost(a, c)
  {
    if a != "" && b[0] == a[0] && c[0] == a[0] {
      AtMostTransitive(a[1..], b[1..], c[1..]);
    }
  }

  lemma {:induction false} AtMostBoth(a: string, b: string)
    requires AtMost(a, b) && AtMost(b, a)
    ensures a == b
  {
    if a != "" {
      AtMostBoth(a[1..], b[1..]);
      assert a == [a[0]] + a[1..] && b == [b[0]] + b[1..];
    }
  }

  predicate Ascending(names: seq<string>) {
    |names| <= 1 || (AtMost(names[0], names[1]) && Ascending(names[1..]))
  }

  lemma {:induction false} InsertOrders(name: string, sorted: seq<string>)
    requires Ascending(sorted)
    ensures var r := Insert(name, sorted);
            Ascending(r) && r != [] && (r[0] == name || (sorted != [] && r[0] == sorted[0]))
  {
    if sorted != [] {
      if AtMost(name, sorted[0]) {
        assert ([name] + sorted)[1..] == sorted;
      } else {
        var rest := Insert(name, sorted[1..]);
        AtMostTotal(name, sorted[0]);
        InsertOrders(name, sorted[1..]);
        assert ([sorted[0]] + rest)[1..] == rest;
      }
    }
  }

  lemma {:induction false} InsertCounts(name: string, sorted: seq<string>)
    ensures multiset(Insert(name, sorted)) == multiset(sorted) + multiset{name}
  {
    if sorted != [] {
      InsertCounts(name, sorted[1..]);
      assert sorted == [sorted[0]] + sorted[1..];
    }
  }

  /** Sorting keeps every name as often as it was and puts them in ascending order. */
  lemma {:induction false} SortOrders(names: seq<string>)
    ensures Ascending(Sort(names)) && multiset(Sort(names)) == multiset(names)
  {
    if names != [] {
      SortOrders(names[1..]);
      InsertOrders(names[0], Sort(names[1..]));
      InsertCounts(names[0], Sort(names[1..]));
      assert names == [names[0]] + names[1..];
    }
  }

  lemma {:induction false} FirstIsLeast(names: seq<string>, n: string)
    requires Ascending(names) && n in names
    ensures AtMost(names[0], n)
  {
    AtMostTotal(names[0], names[0]);
    if n != names[0] {
      FirstIsLeast(names[1..], n);
      AtMostTransitive(names[0], names[1], n);
    }
  }

  /** There is one ascending order. */
  lemma {:induction false} OneOrder(a: seq<string>, b: seq<string>)
    requires Ascending(a) && Ascending(b) && multiset(a) == multiset(b)
    ensures a == b
  {
    assert |a| == |multiset(a)| == |b|;
    if a != [] {
      SameFirst(a, b);
      TailCounts(a);
      TailCounts(b);
      OneOrder(a[1..], b[1..]);
    }
  }

  lemma SameFirst(a: seq<string>, b: seq<string>)
    requires Ascending(a) && Ascending(b) && multiset(a) == multiset(b) && a != [] && b != []
    ensures a[0] == b[0]
  {
    assert a[0] in multiset(b) && b[0] in multiset(a);
    FirstIsLeast(a, b[0]);
    FirstIsLeast(b, a[0]);
    AtMostBoth(a[0], b[0]);
  }

  lemma TailCounts(a: seq<string>)
    requires a != []
    ensures multiset(a[1..]) == multiset(a) - multiset{a[0]} && a == [a[0]] + a[1..]
  {
    assert a == [a[0]] + a[1..];
  }

  // ---------- printing ----------

  /** The tab-separated fields of the printed line. */
  function LiteralFields(cmd: string, args: seq<string>, envKeys: seq<string>, auditLabel: string): seq<string> {
    ["^" + LiteralBody(Canonical(cmd, args)) + "$"]
    + (if envKeys != [] || auditLabel != "" then [Join(Sort(envKeys), ',')] else [])
    + (if auditLabel != "" then ["# " + auditLabel] else [])
  }

  /** `LiteralRule`. */
  function LiteralRule(cmd: string, args: seq<string>, envKeys: seq<string>, auditLabel: string): string {
    "^" + LiteralBody(Canonical(cmd, args)) + "$"
    + (if envKeys != [] || auditLabel != "" then "\t" + Join(Sort(envKeys), ',') else "")
    + (if auditLabel != "" then "\t" + ("# " + auditLabel) else "")
  }

  /** The order in which the names were given does not show in the printed line. */
  lemma SameLine(cmd: string, args: seq<string>, envKeys: seq<string>, envKeys': seq<string>, auditLabel: string)
    requires multiset(envKeys) == multiset(envKeys')
    ensures LiteralRule(cmd, args, envKeys, auditLabel) == LiteralRule(cmd, args, envKeys', auditLabel)
  {
    SortOrders(envKeys);
    SortOrders(envKeys');
    OneOrder(Sort(envKeys), Sort(envKeys'));
    assert |envKeys| == |multiset(envKeys)| == |envKeys'|;
  }

  predicate ValidEnv(envKeys: seq<string>) {
    forall k <- envKeys :: IsEnvName(k)
  }

  lemma {:induction false} JoinNames(names: seq<string>)
    requires names != [] && ValidEnv(names)
    ensures var j := Join(names, ',');
            && j != "" && IsNameStart(j[0]) && !IsSpace(j[|j| - 1])
            && '\t' !in j && '\n' !in j && '\r' !in j
  {
    assert IsEnvName(names[0]);
    if |names| > 1 {
      JoinNames(names[1..]);
    }
  }

  lemma NameTrims(names: seq<string>)
    requires ValidEnv(names)
    ensures Trimmed(names) == names
    ensures forall i :: 0 <= i < |names| ==> ',' !in names[i]
  {
    forall i | 0 <= i < |names|
      ensures TrimSpace(names[i]) == names[i] && ',' !in names[i]
    {
      assert IsEnvName(names[i]);
      TrimNothing(names[i]);
    }
  }

  /** The printed column parses to the printed names. */
  lemma EnvColumnReads(names: seq<string>, lineNo: nat)
    requires ValidEnv(names)
    ensures EnvColumn(Join(names, ','), lineNo) == Ok((names, false))
  {
    if names != [] {
      var j := Join(names, ',');
      JoinNames(names);
      TrimNothing(j);
      NameTrims(names);
      SplitJoin(names, ',');
      assert AllAccepted(EnvNames, names);
    }
  }

  lemma JoinTwo(x: string, y: string)
    ensures Join([x, y], '\t') == x + ("\t" + y)
  {
    assert [x, y][1..] == [y];
    assert x + ['\t'] + y == x + ("\t" + y);
  }

  lemma JoinThree(x: string, y: string, z: string)
    ensures Join([x, y, z], '\t') == x + ("\t" + y) + ("\t" + z)
  {
    assert [x, y, z][1..] == [y, z];
    JoinTwo(y, z);
    assert x + ['\t'] + (y + ("\t" + z)) == x + ("\t" + y) + ("\t" + z);
  }

  lemma LiteralIsJoin(cmd: string, args: seq<string>, envKeys: seq<string>, auditLabel: string)
    ensures LiteralRule(cmd, args, envKeys, auditLabel) == Join(LiteralFields(cmd, args, envKeys, auditLabel), '\t')
  {
    var rx := "^" + LiteralBody(Canonical(cmd, args)) + "$";
    var env, lbl := Join(Sort(envKeys), ','), "# " + auditLabel;
    var line := LiteralRule(cmd, args, envKeys, auditLabel);
    if auditLabel != "" {
      JoinThree(rx, env, lbl);
      assert line == rx + ("\t" + env) + ("\t" + lbl);
      assert LiteralFields(cmd, args, envKeys, auditLabel) == [rx, env, lbl];
    } else if envKeys != [] {
      JoinTwo(rx, env);
      assert line == rx + ("\t" + env) + "";
      assert LiteralFields(cmd, args, envKeys, auditLabel) == [rx, env];
    } else {
      assert line == rx + "" + "";
      assert LiteralFields(cmd, args, envKeys, auditLabel) == [rx];
    }
  }

  lemma SortValid(envKeys: seq<string>)
    requires ValidEnv(envKeys)
    ensures ValidEnv(Sort(envKeys))
    ensures Sort(envKeys) == [] <==> envKeys == []
  {
    SortKeeps(envKeys);
    if envKeys != [] {
      assert envKeys[0] in Sort(envKeys);
    }
    if Sort(envKeys) != [] {
      assert Sort(envKeys)[0] in envKeys;
    }
  }

  predicate Clean(s: string) {
    '\t' !in s && '\n' !in s
  }

  lemma RegexClean(w: string)
    ensures Clean("^" + LiteralBody(w) + "$")
  {
    LiteralBodyIs(w);
    EscapeAllClean(w);
  }

  lemma EnvClean(envKeys: seq<string>)
    requires ValidEnv(envKeys)
    ensures Clean(Join(Sort(envKeys), ','))
  {
    SortValid(envKeys);
    if envKeys != [] {
      JoinNames(Sort(envKeys));
    }
  }

  lemma FieldsClean(cmd: string, args: seq<string>, envKeys: seq<string>, auditLabel: string)
    requires ValidEnv(envKeys) && Clean(auditLabel)
    ensures forall f <- LiteralFields(cmd, args, envKeys, auditLabel) :: Clean(f)
  {
    RegexClean(Canonical(cmd, args));
    EnvClean(envKeys);
    assert Clean("# " + auditLabel);
  }

  lemma {:induction false} JoinClean(parts: seq<string>, sep: char, c: char)
    requires sep != c && forall p <- parts :: c !in p
    ensures c !in Join(parts, sep)
  {
    if |parts| > 1 {
      JoinClean(parts[1..], sep, c);
    }
  }

  lemma LineClean(cmd: string, args: seq<string>, envKeys: seq<string>, auditLabel: string)
    requires ValidEnv(envKeys) && Clean(auditLabel)
    ensures '\n' !in LiteralRule(cmd, args, envKeys, auditLabel)
    ensures Split(LiteralRule(cmd, args, envKeys, auditLabel), '\t') == LiteralFields(cmd, args, envKeys, auditLabel)
  {
    FieldsClean(cmd, args, envKeys, auditLabel);
    LiteralIsJoin(cmd, args, envKeys, auditLabel);
    var fields := LiteralFields(cmd, args, envKeys, auditLabel);
    assert forall f <- fields :: Clean(f) && '\n' !in f;
    JoinClean(fields, '\t', '\n');
    forall i | 0 <= i < |fields|
      ensures '\t' !in fields[i]
    {
      assert Clean(fields[i]);
    }
    SplitJoin(fields, '\t');
  }

  /** The rule that the printed line parses to. */
  function BlessedRule(cmd: string, args: seq<string>, envKeys: seq<string>, auditLabel: string, lineNo: nat): Rule {
    Rule(Anchored("^" + LiteralBody(Canonical(cmd, args)) + "$"), Sort(envKeys), false, TrimSpace(auditLabel), ["cli"],
         lineNo, LiteralRule(cmd, args, envKeys, auditLabel))
  }

  lemma TrimBlank(s: string)
    ensures TrimSpace(" " + s) == TrimSpace(s)
  {
    assert (" " + s)[1..] == s;
  }

  /** A printed line always parses, whatever the arguments hold. */
  lemma LiteralParses(e: Re2, cmd: string, args: seq<string>, envKeys: seq<string>, auditLabel: string, lineNo: nat)
    requires ValidEnv(envKeys) && Clean(auditLabel)
    ensures ParseLine(e, LiteralRule(cmd, args, envKeys, auditLabel), lineNo)
         == Ok(BlessedRule(cmd, args, envKeys, auditLabel, lineNo))
  {
    var line := LiteralRule(cmd, args, envKeys, auditLabel);
    var fields := LiteralFields(cmd, args, envKeys, auditLabel);
    LineClean(cmd, args, envKeys, auditLabel);
    EngineOnLiteral(e, Canonical(cmd, args), "");
    EnvReads(fields, envKeys, lineNo);
    LabelReads(fields, auditLabel, lineNo);
    ScopeDefault(lineNo);
    Assembled(e, line, fields, Sort(envKeys), TrimSpace(auditLabel), lineNo);
  }

  lemma EnvReads(fields: seq<string>, envKeys: seq<string>, lineNo: nat)
    requires ValidEnv(envKeys)
    requires if |fields| > 1 then fields[1] == Join(Sort(envKeys), ',') else envKeys == []
    ensures EnvColumn(Field(fields, 1), lineNo) == Ok((Sort(envKeys), false))
  {
    SortValid(envKeys);
    EnvColumnReads(Sort(envKeys), lineNo);
  }

  lemma ScopeDefault(lineNo: nat)
    ensures ScopeColumn("", lineNo) == Ok(["cli"])
  {}

  lemma Assembled(e: Re2, line: string, fields: seq<string>, names: seq<string>, auditLabel: string, lineNo: nat)
    requires Split(line, '\t') == fields && 1 <= |fields| <= 4 && e.compiles(Anchored(fields[0]))
    requires EnvColumn(Field(fields, 1), lineNo) == Ok((names, false))
    requires LabelColumn(Field(fields, 2), lineNo) == Ok(auditLabel)
    requires ScopeColumn(Field(fields, 3), lineNo) == Ok(["cli"])
    ensures ParseLine(e, line, lineNo) == Ok(Rule(Anchored(fields[0]), names, false, auditLabel, ["cli"], lineNo, line))
  {}

  lemma LabelReads(fields: seq<string>, auditLabel: string, lineNo: nat)
    requires if auditLabel != "" then |fields| == 3 && fields[2] == "# " + auditLabel else |fields| <= 2
    ensures LabelColumn(Field(fields, 2), lineNo) == Ok(TrimSpace(auditLabel))
    ensures Field(fields, 3) == ""
  {
    if auditLabel != "" {
      assert ("# " + auditLabel)[1..] == " " + auditLabel;
      TrimBlank(auditLabel);
    }
  }

  /** The parsed rule allows the blessed invocation with any of the blessed names, and nothing else. */
  lemma BlessedMatches(e: Re2, cmd: string, args: seq<string>, envKeys: seq<string>, auditLabel: string, lineNo: nat,
                       matchStr: string, env': seq<string>)
    ensures RuleMatches(e, BlessedRule(cmd, args, envKeys, auditLabel, lineNo), matchStr, env')
       <==> matchStr == Canonical(cmd, args) && forall k <- env' :: k in envKeys
    ensures !MatchesAll(e, BlessedRule(cmd, args, envKeys, auditLabel, lineNo))
  {
    EngineOnLiteral(e, Canonical(cmd, args), matchStr);
    EngineOnLiteral(e, Canonical(cmd, args), "");
    EngineOnLiteral(e, Canonical(cmd, args), "/");
    SortKeeps(envKeys);
    if env' != [] && forall k <- env' :: k in envKeys {
      assert env'[0] in Sort(envKeys);
    }
  }
}
