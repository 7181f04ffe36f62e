/**
 * The older `#DW` parser of pkg/utils/dwdparse/dwdparse.go.
 *
 * It splits a directive into words as the newer parser does, but keeps
 * the last value of a repeated key, joins the definitions of every rule
 * for the command, accepts a boolean only in six spellings, and never
 * checks that required arguments are present. Its errors are plain
 * strings (errors.New).
 */
module LegacyDwdParse {
  import opened Base
  import opened GoStrings
  import opened Regexp
  import DwdParse

  /** One accepted argument of a command (DWDirectiveRuleDef, without a uniqueness scope). */
  datatype RuleDef = RuleDef(
    key: string,
    valueType: string,
    pattern: string,
    min: int,
    max: int,
    isRequired: bool,
    isValueRequired: bool)

  /** A rule for one `#DW` command (DWDirectiveRuleSpec). */
  datatype RuleSpec = RuleSpec(command: string, ruleDefs: seq<RuleDef>)

  // ---------------------------------------------------------------------
  // Rules of one command (BuildRulesMap)
  // ---------------------------------------------------------------------

  /** Stores each definition under its key, in order, so that a later definition replaces an earlier one. */
  function Define(defs: seq<RuleDef>, table: map<string, RuleDef>): map<string, RuleDef>
    decreases |defs|
  {
    if defs == [] then table else Define(defs[1..], table[defs[0].key := defs[0]])
  }

  /** The definitions of every rule for `cmd`, in rule order. */
  function MatchingDefs(rules: seq<RuleSpec>, cmd: string): seq<RuleDef>
    decreases |rules|
  {
    if rules == [] then []
    else (if rules[0].command == cmd then rules[0].ruleDefs else []) + MatchingDefs(rules[1..], cmd)
  }

  /** What the loop of BuildRulesMap leaves in `table` after visiting `rules`. */
  function Union(rules: seq<RuleSpec>, cmd: string, table: map<string, RuleDef>): map<string, RuleDef>
    decreases |rules|
  {
    if rules == [] then table
    else Union(rules[1..], cmd, if rules[0].command == cmd then Define(rules[0].ruleDefs, table) else table)
  }

  /** The keys of some definitions. */
  function DefKeys(defs: seq<RuleDef>): set<string> {
    set i | 0 <= i < |defs| :: defs[i].key
  }

  /** Defining a concatenation defines the first part, then the second. */
  lemma {:induction false} DefineAppend(a: seq<RuleDef>, b: seq<RuleDef>, table: map<string, RuleDef>)
    ensures Define(a + b, table) == Define(b, Define(a, table))
    decreases |a|
  {
    if a != [] {
      assert (a + b)[1..] == a[1..] + b;
      DefineAppend(a[1..], b, table[a[0].key := a[0]]);
    } else {
      assert a + b == b;
    }
  }

  /** The loop over the rules defines exactly the definitions of the matching rules. */
  lemma {:induction false} UnionDefines(rules: seq<RuleSpec>, cmd: string, table: map<string, RuleDef>)
    ensures Union(rules, cmd, table) == Define(MatchingDefs(rules, cmd), table)
    decreases |rules|
  {
    if rules != [] {
      var own := if rules[0].command == cmd then rules[0].ruleDefs else [];
      var table' := if rules[0].command == cmd then Define(rules[0].ruleDefs, table) else table;
      UnionDefines(rules[1..], cmd, table');
      DefineAppend(own, MatchingDefs(rules[1..], cmd), table);
    }
  }

  /** Defining adds exactly the keys of the definitions; each key maps to a definition with that key. */
  lemma {:induction false} DefineKeys(defs: seq<RuleDef>, table: map<string, RuleDef>)
    requires forall k :: k in table ==> table[k].key == k
    ensures Define(defs, table).Keys == table.Keys + DefKeys(defs)
    ensures forall k :: k in Define(defs, table) ==> Define(defs, table)[k].key == k
    decreases |defs|
  {
    if defs != [] {
      var rest := defs[1..];
      DefineKeys(rest, table[defs[0].key := defs[0]]);
      assert DefKeys(defs) == {defs[0].key} + DefKeys(rest) by {
        forall k | k in DefKeys(defs) ensures k in {defs[0].key} + DefKeys(rest) {
          var i :| 0 <= i < |defs| && defs[i].key == k;
          if i > 0 {
            assert defs[i] == rest[i - 1];
          }
        }
        forall k | k in DefKeys(rest) ensures k in DefKeys(defs) {
          var i :| 0 <= i < |rest| && rest[i].key == k;
          assert defs[i + 1] == rest[i];
        }
      }
    }
  }

  /** Of several definitions with one key, the last is the one kept. */
  lemma {:induction false} DefineLastWins(defs: seq<RuleDef>, table: map<string, RuleDef>, i: nat)
    requires i < |defs|
    requires forall j :: i < j < |defs| ==> defs[j].key != defs[i].key
    ensures defs[i].key in Define(defs, table) && Define(defs, table)[defs[i].key] == defs[i]
    decreases |defs|
  {
    var rest := defs[1..];
    var table' := table[defs[0].key := defs[0]];
    if i == 0 {
      DefineKeeps(rest, table', defs[0].key);
    } else {
      forall j | i - 1 < j < |rest| ensures rest[j].key != rest[i - 1].key {
        assert rest[j] == defs[j + 1];
      }
      DefineLastWins(rest, table', i - 1);
    }
  }

  /** A key no definition has keeps its entry. */
  lemma {:induction false} DefineKeeps(defs: seq<RuleDef>, table: map<string, RuleDef>, k: string)
    requires k in table
    requires forall j :: 0 <= j < |defs| ==> defs[j].key != k
    ensures k in Define(defs, table) && Define(defs, table)[k] == table[k]
    decreases |defs|
  {
    if defs != [] {
      forall j | 0 <= j < |defs[1..]| ensures defs[1..][j].key != k {
        assert defs[1..][j] == defs[j + 1];
      }
      DefineKeeps(defs[1..], table[defs[0].key := defs[0]], k);
    }
  }

  /**
   * The joined table of a command: its keys are those of the definitions
   * of every rule for the command, each maps to the last definition with
   * that key, and it is empty exactly when those rules define nothing.
   */
  lemma UnionTable(rules: seq<RuleSpec>, cmd: string)
    ensures var t := Union(rules, cmd, map[]);
      && t.Keys == DefKeys(MatchingDefs(rules, cmd))
      && (forall k :: k in t ==> t[k].key == k)
      && (t == map[] <==> MatchingDefs(rules, cmd) == [])
  {
    var defs := MatchingDefs(rules, cmd);
    UnionDefines(rules, cmd, map[]);
    DefineKeys(defs, map[]);
    if defs != [] {
      assert defs[0].key in DefKeys(defs);
    }
  }

  /** The table of a command maps a key to the last definition with it among the rules for the command. */
  lemma UnionLastWins(rules: seq<RuleSpec>, cmd: string, i: nat)
    requires i < |MatchingDefs(rules, cmd)|
    requires forall j :: i < j < |MatchingDefs(rules, cmd)| ==> MatchingDefs(rules, cmd)[j].key != MatchingDefs(rules, cmd)[i].key
    ensures var d := MatchingDefs(rules, cmd)[i];
      d.key in Union(rules, cmd, map[]) && Union(rules, cmd, map[])[d.key] == d
  {
    UnionDefines(rules, cmd, map[]);
    DefineLastWins(MatchingDefs(rules, cmd), map[], i);
  }

  /** The Go error text for a command that no rule defines. */
  function UnsupportedCommand(cmd: string): string {
    "Unsupported #DW command " + cmd
  }

  /** Joins the definitions of every rule for `cmd`; fails when they define nothing. */
  method BuildRulesMap(rules: seq<RuleSpec>, cmd: string) returns (r: Result<map<string, RuleDef>, string>)
    ensures r.Failure? <==> MatchingDefs(rules, cmd) == []
    ensures r.Failure? ==> r.error == UnsupportedCommand(cmd)
    ensures r.Success? ==> r.value == Union(rules, cmd, map[])
  {
    var rulesMap: map<string, RuleDef> := map[];
    for i := 0 to |rules|
      invariant Union(rules[i..], cmd, rulesMap) == Union(rules, cmd, map[])
    {
      assert rules[i..][1..] == rules[i + 1..];
      var rule := rules[i];
      if cmd == rule.command {
        ghost var before := rulesMap;
        for j := 0 to |rule.ruleDefs|
          invariant Define(rule.ruleDefs[j..], rulesMap) == Define(rule.ruleDefs, before)
        {
          assert rule.ruleDefs[j..][1..] == rule.ruleDefs[j + 1..];
          var rd := rule.ruleDefs[j];
          rulesMap := rulesMap[rd.key := rd];
        }
      }
    }
    UnionTable(rules, cmd);
    if |rulesMap| == 0 {
      return Failure(UnsupportedCommand(cmd));
    }
    return Success(rulesMap);
  }

  // ---------------------------------------------------------------------
  // Arguments of one directive (BuildArgsMap)
  // ---------------------------------------------------------------------

  /** Stores each `key[=value]` word in order, so that a repeated key keeps its last value. */
  function Assign(tokens: seq<string>, args: map<string, string>): map<string, string>
    decreases |tokens|
  {
    if tokens == [] then args
    else
      var kv := DwdParse.KeyValue(tokens[0]);
      Assign(tokens[1..], args[kv.0 := kv.1])
  }

  const MissingPrefix := "missing #DW in directive"

  /**
   * The argument map of a directive: "command" is the second word, then
   * every later word is stored, a repeated key (even "command") taking
   * the later value.
   */
  function ParseArgs(dwd: string): Result<map<string, string>, string>
    requires Fields(dwd) != []     // the Go code indexes the first word and panics on a blank directive
    requires !DwdParse.Bare(dwd)   // and the second, after `#DW`
  {
    var fs := Fields(dwd);
    if fs[0] != "#DW" then Failure(MissingPrefix)
    else Success(Assign(fs[2..], map["command" := fs[1]]))
  }

  method BuildArgsMap(dwd: string) returns (r: Result<map<string, string>, string>)
    requires Fields(dwd) != [] && !DwdParse.Bare(dwd)
    ensures r == ParseArgs(dwd)
  {
    var argsMap: map<string, string> := map[];
    var dwdArgs := Fields(dwd);
    if dwdArgs[0] == "#DW" {
      argsMap := argsMap["command" := dwdArgs[1]];
      for i := 2 to |dwdArgs|
        invariant Assign(dwdArgs[i..], argsMap) == Assign(dwdArgs[2..], map["command" := dwdArgs[1]])
      {
        assert dwdArgs[i..][1..] == dwdArgs[i + 1..];
        var keyValue := Split(dwdArgs[i], '=');
        SplitOfToken(dwdArgs[i], '=');
        if |keyValue| == 1 {
          argsMap := argsMap[keyValue[0] := "true"];
        } else if |keyValue| == 2 {
          argsMap := argsMap[keyValue[0] := keyValue[1]];
        } else {
          var keyValue' := SplitN(dwdArgs[i], '=', 2);
          argsMap := argsMap[keyValue'[0] := keyValue'[1]];
        }
      }
    } else {
      return Failure(MissingPrefix);
    }
    return Success(argsMap);
  }

  /** The keys after assigning are those given plus those of the words. */
  lemma {:induction false} AssignKeys(tokens: seq<string>, args: map<string, string>)
    ensures Assign(tokens, args).Keys == args.Keys + DwdParse.TokenKeys(tokens)
    decreases |tokens|
  {
    if tokens != [] {
      var kv := DwdParse.KeyValue(tokens[0]);
      AssignKeys(tokens[1..], args[kv.0 := kv.1]);
      DwdParse.TokenKeysCons(tokens);
    }
  }

  /** A word whose key no later word repeats gives that key its value. */
  lemma {:induction false} AssignLastWins(tokens: seq<string>, args: map<string, string>, i: nat)
    requires i < |tokens|
    requires forall j :: i < j < |tokens| ==> DwdParse.TokenKey(tokens[j]) != DwdParse.TokenKey(tokens[i])
    ensures var k := DwdParse.TokenKey(tokens[i]);
      k in Assign(tokens, args) && Assign(tokens, args)[k] == DwdParse.KeyValue(tokens[i]).1
    decreases |tokens|
  {
    var kv := DwdParse.KeyValue(tokens[0]);
    var rest := tokens[1..];
    if i == 0 {
      forall j | 0 <= j < |rest| ensures DwdParse.TokenKey(rest[j]) != kv.0 {
        assert rest[j] == tokens[j + 1];
      }
      AssignKeeps(rest, args[kv.0 := kv.1], kv.0);
    } else {
      forall j | i - 1 < j < |rest| ensures DwdParse.TokenKey(rest[j]) != DwdParse.TokenKey(rest[i - 1]) {
        assert rest[j] == tokens[j + 1];
      }
      AssignLastWins(rest, args[kv.0 := kv.1], i - 1);
    }
  }

  /** A key no word has keeps its value. */
  lemma {:induction false} AssignKeeps(tokens: seq<string>, args: map<string, string>, k: string)
    requires k in args
    requires forall j :: 0 <= j < |tokens| ==> DwdParse.TokenKey(tokens[j]) != k
    ensures k in Assign(tokens, args) && Assign(tokens, args)[k] == args[k]
    decreases |tokens|
  {
    if tokens != [] {
      var kv := DwdParse.KeyValue(tokens[0]);
      forall j | 0 <= j < |tokens[1..]| ensures DwdParse.TokenKey(tokens[1..][j]) != k {
        assert tokens[1..][j] == tokens[j + 1];
      }
      AssignKeeps(tokens[1..], args[kv.0 := kv.1], k);
    }
  }

  /**
   * What the old BuildArgsMap makes of a directive: it fails exactly
   * when the first word is not `#DW`; otherwise its keys are "command"
   * and the words' keys, each word whose key no later word repeats
   * gives its value, and "command" is the second word unless a word
   * has the key "command".
   */
  lemma ParseArgsMeaning(dwd: string)
    requires Fields(dwd) != [] && !DwdParse.Bare(dwd)
    ensures var fs := Fields(dwd);
      && (ParseArgs(dwd).Failure? <==> fs[0] != "#DW")
      && (ParseArgs(dwd).Failure? ==> ParseArgs(dwd).error == MissingPrefix)
    ensures ParseArgs(dwd).Success? ==>
      var fs := Fields(dwd);
      var args := ParseArgs(dwd).value;
      && |fs| >= 2
      && args.Keys == {"command"} + DwdParse.TokenKeys(fs[2..])
      && ((forall j :: 2 <= j < |fs| ==> DwdParse.TokenKey(fs[j]) != "command") ==> args["command"] == fs[1])
  {
    var fs := Fields(dwd);
    if fs[0] == "#DW" {
      assert |fs| >= 2;
      WordArgsMeaning(fs);
    }
  }

  /** ParseArgsMeaning, on the words of the directive. */
  lemma WordArgsMeaning(fs: seq<string>)
    requires |fs| >= 2
    ensures var args := Assign(fs[2..], map["command" := fs[1]]);
      && args.Keys == {"command"} + DwdParse.TokenKeys(fs[2..])
      && ((forall j :: 2 <= j < |fs| ==> DwdParse.TokenKey(fs[j]) != "command") ==> args["command"] == fs[1])
  {
    var tokens := fs[2..];
    AssignKeys(tokens, map["command" := fs[1]]);
    if forall j :: 2 <= j < |fs| ==> DwdParse.TokenKey(fs[j]) != "command" {
      forall j | 0 <= j < |tokens| ensures DwdParse.TokenKey(tokens[j]) != "command" {
        assert tokens[j] == fs[j + 2];
      }
      AssignKeeps(tokens, map["command" := fs[1]], "command");
    }
  }

  /** Each argument word whose key no later word repeats gives its value. */
  lemma ParseArgsLastWins(dwd: string, i: nat)
    requires Fields(dwd) != [] && !DwdParse.Bare(dwd)
    requires ParseArgs(dwd).Success?
    requires 2 <= i < |Fields(dwd)|
    requires forall j :: i < j < |Fields(dwd)| ==> DwdParse.TokenKey(Fields(dwd)[j]) != DwdParse.TokenKey(Fields(dwd)[i])
    ensures var w := Fields(dwd)[i];
      var args := ParseArgs(dwd).value;
      DwdParse.TokenKey(w) in args && args[DwdParse.TokenKey(w)] == DwdParse.KeyValue(w).1
  {
    var fs := Fields(dwd);
    assert ParseArgs(dwd).value == Assign(fs[2..], map["command" := fs[1]]);
    WordArgsLastWins(fs, i);
  }

  /** ParseArgsLastWins, on the words of the directive. */
  lemma WordArgsLastWins(fs: seq<string>, i: nat)
    requires 2 <= i < |fs|
    requires forall j :: i < j < |fs| ==> DwdParse.TokenKey(fs[j]) != DwdParse.TokenKey(fs[i])
    ensures var args := Assign(fs[2..], map["command" := fs[1]]);
      DwdParse.TokenKey(fs[i]) in args && args[DwdParse.TokenKey(fs[i])] == DwdParse.KeyValue(fs[i]).1
  {
    var tokens := fs[2..];
    forall j | i - 2 < j < |tokens| ensures DwdParse.TokenKey(tokens[j]) != DwdParse.TokenKey(tokens[i - 2]) {
      assert tokens[j] == fs[j + 2];
    }
    AssignLastWins(tokens, map["command" := fs[1]], i - 2);
  }

  // ---------------------------------------------------------------------
  // Validation of one directive (ValidateArgs)
  // ---------------------------------------------------------------------

  /** The six spellings that `^(true|false|True|False|TRUE|FALSE)$` accepts. */
  predicate IsBoolForm(v: string) {
    v in {"true", "false", "True", "False", "TRUE", "FALSE"}
  }

  /** The check of one argument value against its definition, as an error text or None. */
  function ValueError(rd: RuleDef, k: string, v: string, re: Matcher): (r: Option<string>)
    ensures rd.isValueRequired && v == "" ==> r == Some("Malformed keyword[=value]: " + k + "=" + v)
    ensures !(rd.isValueRequired && v == "") ==>
      && (rd.valueType == "integer" ==>
            (r.None? <==> Atoi(v).Some? && (rd.max != 0 ==> Atoi(v).value <= rd.max)
                                        && (rd.min != 0 ==> rd.min <= Atoi(v).value)))
      && (rd.valueType == "bool" ==> (r.None? <==> rd.pattern == "" || IsBoolForm(v)))
      && (rd.valueType == "string" ==> (r.None? <==> rd.pattern == "" || re(rd.pattern, v) == Matched))
      && (rd.valueType !in {"integer", "bool", "string"} ==> r == Some("Unsupported value type: " + rd.valueType))
  {
    if rd.isValueRequired && |v| == 0 then Some("Malformed keyword[=value]: " + k + "=" + v)
    else if rd.valueType == "integer" then
      match Atoi(v)
      case None => Some("Invalid integer argument: " + k + "=" + v)
      case Some(i) =>
        if rd.max != 0 && i > rd.max then Some("Specified integer exceeds maximum " + Itoa(rd.max) + ": " + k + "=" + v)
        else if rd.min != 0 && i < rd.min then Some("Specified integer smaller than minimum " + Itoa(rd.min) + ": " + k + "=" + v)
        else None
    else if rd.valueType == "bool" then
      if rd.pattern != "" && !IsBoolForm(v) then Some("Invalid bool argument: " + k + "=" + v) else None
    else if rd.valueType == "string" then
      if rd.pattern == "" then None
      else
        match re(rd.pattern, v)
        case Matched => None
        case NotMatched => Some("Invalid argument: " + k + "=" + v)
        case BadPattern => Some("Invalid regexp in rule: " + rd.pattern)
    else Some("Unsupported value type: " + rd.valueType)
  }

  /** Each of the arguments `ks` other than the command has a definition in `table` its value passes. */
  ghost predicate ValuesPass(table: map<string, RuleDef>, args: map<string, string>, ks: set<string>, re: Matcher) {
    forall k :: k in ks && k in args && k != "command" ==> k in table && ValueError(table[k], k, args[k], re).None?
  }

  /**
   * When the old ValidateArgs accepts `args`: some rule for its command
   * (the empty string when "command" is missing) defines arguments, and
   * every other argument has a definition its value passes. Nothing
   * else is checked: neither required arguments nor uniqueness.
   */
  ghost predicate ArgsAccepted(args: map<string, string>, rules: seq<RuleSpec>, re: Matcher) {
    var cmd := DwdParse.Lookup(args, "command");
    && MatchingDefs(rules, cmd) != []
    && ValuesPass(Union(rules, cmd, map[]), args, args.Keys, re)
  }

  /**
   * Validates the arguments of one directive against the rules. The
   * arguments are visited in an unspecified order, as Go visits a map,
   * so which of several faults is reported is left open.
   */
  method ValidateArgs(args: map<string, string>, rules: seq<RuleSpec>, re: Matcher) returns (err: Option<string>)
    ensures err.None? <==> ArgsAccepted(args, rules, re)
    ensures MatchingDefs(rules, DwdParse.Lookup(args, "command")) == [] ==>
      err == Some(UnsupportedCommand(DwdParse.Lookup(args, "command")))
  {
    var command := DwdParse.Lookup(args, "command");
    var rulesMap := BuildRulesMap(rules, command);
    if rulesMap.Failure? {
      return Some(rulesMap.error);
    }
    var table := rulesMap.value;
    var pending := args.Keys;
    while pending != {}
      invariant pending <= args.Keys
      invariant ValuesPass(table, args, args.Keys - pending, re)
      decreases pending
    {
      var k :| k in pending;
      ghost var done := args.Keys - pending;
      pending := pending - {k};
      assert args.Keys - pending == done + {k};
      if k != "command" {
        if k !in table {
          return Some("Unsupported argument - " + k);
        }
        var e := ValueError(table[k], k, args[k], re);
        if e.Some? {
          return e;
        }
      }
    }
    return None;
  }

  /**
   * Required arguments are never checked: a directive that gives only
   * its command is accepted whenever some rule defines arguments for it,
   * required or not.
   */
  lemma RequiredNeverChecked(rules: seq<RuleSpec>, cmd: string, re: Matcher)
    requires MatchingDefs(rules, cmd) != []
    ensures ArgsAccepted(map["command" := cmd], rules, re)
  {
  }

  /** The old parser's booleans are some of the newer parser's, which also allows any other letter casing. */
  lemma BoolFormsNarrower(v: string)
    ensures IsBoolForm(v) ==> DwdParse.IsBoolWord(v)
    ensures DwdParse.IsBoolWord("tRUE") && !IsBoolForm("tRUE")
  {
    assert ToLower("tRUE") == "true";
    DwdParse.BoolWordCases("tRUE");
    if IsBoolForm(v) {
      assert ToLower("true") == "true" && ToLower("True") == "true" && ToLower("TRUE") == "true";
      assert ToLower("false") == "false" && ToLower("False") == "false" && ToLower("FALSE") == "false";
      DwdParse.BoolWordCases(v);
    }
  }

  // ---------------------------------------------------------------------
  // Validation of a list of directives (ValidateDWDirectives)
  // ---------------------------------------------------------------------

  /** Directive `dwd` parses and its arguments are accepted. */
  ghost predicate DirectiveValid(dwd: string, rules: seq<RuleSpec>, re: Matcher)
    requires Fields(dwd) != [] && !DwdParse.Bare(dwd)
  {
    ParseArgs(dwd).Success? && ArgsAccepted(ParseArgs(dwd).value, rules, re)
  }

  /** None of the directives would make the Go code panic. */
  predicate Parsable(directives: seq<string>) {
    forall i :: 0 <= i < |directives| ==> Fields(directives[i]) != [] && !DwdParse.Bare(directives[i])
  }

  /** Every directive of directives[i..j] is valid. */
  ghost predicate ValidBetween(directives: seq<string>, rules: seq<RuleSpec>, re: Matcher, i: nat, j: nat)
    requires Parsable(directives) && i <= j <= |directives|
  {
    forall k :: i <= k < j ==> DirectiveValid(directives[k], rules, re)
  }

  /** The first directive of directives[i..] that is not valid, if any. */
  ghost function FirstInvalid(directives: seq<string>, rules: seq<RuleSpec>, re: Matcher, i: nat): (r: Option<nat>)
    requires Parsable(directives) && i <= |directives|
    ensures r.None? <==> ValidBetween(directives, rules, re, i, |directives|)
    ensures r.Some? ==>
      && i <= r.value < |directives|
      && !DirectiveValid(directives[r.value], rules, re)
      && ValidBetween(directives, rules, re, i, r.value)
    decreases |directives| - i
  {
    if i == |directives| then None
    else if !DirectiveValid(directives[i], rules, re) then Some(i)
    else FirstInvalid(directives, rules, re, i + 1)
  }

  /**
   * The loop of ValidateDWDirectives, with the rules given: every
   * directive must parse and be accepted. The first directive that is
   * not stops the loop; if it lacks the `#DW` prefix, that is the error.
   */
  method ValidateDirectives(directives: seq<string>, rules: seq<RuleSpec>, re: Matcher) returns (err: Option<string>)
    requires Parsable(directives)
    ensures err.None? <==> ValidBetween(directives, rules, re, 0, |directives|)
    ensures var bad := FirstInvalid(directives, rules, re, 0);
      bad.Some? && ParseArgs(directives[bad.value]).Failure? ==> err == Some(MissingPrefix)
  {
    for i := 0 to |directives|
      invariant FirstInvalid(directives, rules, re, 0) == FirstInvalid(directives, rules, re, i)
    {
      var dwd := directives[i];
      var argsMap := BuildArgsMap(dwd);
      if argsMap.Failure? {
        return Some(argsMap.error);
      }
      err := ValidateArgs(argsMap.value, rules, re);
      if err.Some? {
        return err;
      }
    }
    return None;
  }

  // ---------------------------------------------------------------------
  // The old parser beside the new one
  // ---------------------------------------------------------------------

  /** Where the new parser collects arguments without a repeated key, it collects what the old one assigns. */
  lemma {:induction false} CollectIsAssign(tokens: seq<string>, args: map<string, string>, dwd: string)
    requires DwdParse.CollectArgs(tokens, args, dwd).Success?
    ensures DwdParse.CollectArgs(tokens, args, dwd).value == Assign(tokens, args)
    decreases |tokens|
  {
    if tokens != [] {
      var kv := DwdParse.KeyValue(tokens[0]);
      CollectIsAssign(tokens[1..], args[kv.0 := kv.1], dwd);
    }
  }

  /**
   * The two parsers agree on every directive the new one accepts; a
   * `#DW` directive that repeats a key is refused by the new parser and
   * accepted by the old one, which keeps the later value.
   */
  lemma ParsersAgree(dwd: string)
    requires Fields(dwd) != [] && !DwdParse.Bare(dwd)
    ensures DwdParse.ParseDirective(dwd).Success? ==> ParseArgs(dwd) == Success(DwdParse.ParseDirective(dwd).value)
    ensures var fs := Fields(dwd);
      fs[0] == "#DW" && !DwdParse.FreshKeys(fs[2..], map["command" := fs[1]]) ==>
        DwdParse.ParseDirective(dwd).Failure? && ParseArgs(dwd).Success?
  {
    var fs := Fields(dwd);
    DwdParse.ParseDirectiveAccepts(dwd);
    if fs[0] == "#DW" && DwdParse.ParseDirective(dwd).Success? {
      CollectIsAssign(fs[2..], map["command" := fs[1]], dwd);
    }
  }

  // ---------------------------------------------------------------------
  // The staging rules of pkg/utils/dwdparse/dwdparse_test.go
  // ---------------------------------------------------------------------

  const TypePattern := "^(directory|file|list)$"

  /** The three required string arguments of stage_in and stage_out. */
  function StagingDefs(): seq<RuleDef> {
    [ RuleDef("type", "string", TypePattern, 0, 0, true, true),
      RuleDef("source", "string", "", 0, 0, true, true),
      RuleDef("destination", "string", "", 0, 0, true, true) ]
  }

  function StagingRules(): seq<RuleSpec> {
    [RuleSpec("stage_in", StagingDefs()), RuleSpec("stage_out", StagingDefs())]
  }

  /** The joined table of a staging command. */
  lemma StagingTable(cmd: string)
    requires cmd == "stage_in" || cmd == "stage_out"
    ensures Union(StagingRules(), cmd, map[]) ==
      map["type" := StagingDefs()[0], "source" := StagingDefs()[1], "destination" := StagingDefs()[2]]
  {
    UnionDefines(StagingRules(), cmd, map[]);
    assert MatchingDefs(StagingRules(), cmd) == StagingDefs();
  }

  /** The arguments of a staging directive. */
  function StagingArgs(cmd: string, t: string, dst: string, src: string): map<string, string> {
    map["command" := cmd, "type" := t, "destination" := dst, "source" := src]
  }

  /** A staging directive with a type the pattern matches and non-empty paths is accepted. */
  lemma StagingAccepted(cmd: string, t: string, dst: string, src: string, re: Matcher)
    requires cmd == "stage_in" || cmd == "stage_out"
    requires t != "" && dst != "" && src != ""
    requires re(TypePattern, t) == Matched
    ensures ArgsAccepted(StagingArgs(cmd, t, dst, src), StagingRules(), re)
  {
    StagingTable(cmd);
    var args := StagingArgs(cmd, t, dst, src);
    var table := Union(StagingRules(), cmd, map[]);
    assert DwdParse.Lookup(args, "command") == cmd;
    assert MatchingDefs(StagingRules(), cmd) != [];
    forall k | k in args && k != "command" ensures k in table && ValueError(table[k], k, args[k], re).None? {
      assert k == "type" || k == "destination" || k == "source";
      if k == "type" {
        assert table[k] == StagingDefs()[0] && args[k] == t;
      } else if k == "destination" {
        assert table[k] == StagingDefs()[2] && args[k] == dst;
      } else {
        assert table[k] == StagingDefs()[1] && args[k] == src;
      }
    }
  }

  /** No definitions match a command exactly when every rule for that command defines nothing. */
  lemma {:induction false} MatchingDefsEmpty(rules: seq<RuleSpec>, cmd: string)
    ensures MatchingDefs(rules, cmd) == [] <==> forall k :: 0 <= k < |rules| && rules[k].command == cmd ==> rules[k].ruleDefs == []
    decreases |rules|
  {
    if rules != [] {
      MatchingDefsEmpty(rules[1..], cmd);
      assert forall k :: 1 <= k < |rules| ==> rules[k] == rules[1..][k - 1];
    }
  }

  /** A directive whose command no rule defines anything for is refused, whatever its arguments. */
  lemma CommandWithoutRulesRefused(args: map<string, string>, rules: seq<RuleSpec>, re: Matcher)
    requires forall k :: 0 <= k < |rules| && rules[k].command == DwdParse.Lookup(args, "command") ==> rules[k].ruleDefs == []
    ensures !ArgsAccepted(args, rules, re)
  {
    MatchingDefsEmpty(rules, DwdParse.Lookup(args, "command"));
  }

  /** Any command other than the staging ones is refused, whatever its arguments. */
  lemma UnknownCommandRefused(args: map<string, string>, re: Matcher)
    requires DwdParse.Lookup(args, "command") != "stage_in" && DwdParse.Lookup(args, "command") != "stage_out"
    ensures !ArgsAccepted(args, StagingRules(), re)
  {
    CommandWithoutRulesRefused(args, StagingRules(), re);
  }

  /** A type the pattern does not match is refused. */
  lemma BadTypeRefused(cmd: string, t: string, dst: string, src: string, re: Matcher)
    requires cmd == "stage_in" || cmd == "stage_out"
    requires t != "" && re(TypePattern, t) != Matched
    ensures !ArgsAccepted(StagingArgs(cmd, t, dst, src), StagingRules(), re)
  {
    StagingTable(cmd);
    var args := StagingArgs(cmd, t, dst, src);
    assert args["type"] == t;
  }

  /** A key the staging rules do not define is refused. */
  lemma UnknownKeyRefused(args: map<string, string>, k: string, re: Matcher)
    requires args.Keys >= {"command"} && args["command"] in {"stage_in", "stage_out"}
    requires k in args && k !in {"command", "type", "source", "destination"}
    ensures !ArgsAccepted(args, StagingRules(), re)
  {
    StagingTable(args["command"]);
  }

  /** A `key=value` word with no `=` in its key splits back into its key and value. */
  lemma KeyValuePair(k: string, v: string)
    requires '=' !in k
    ensures DwdParse.KeyValue(k + "=" + v) == (k, v)
  {
    var w := k + "=" + v;
    IndexOfAfter(k, "=" + v, '=');
    assert w == k + ("=" + v);
    DwdParse.KeyValueCut(w);
    assert w[..|k|] == k && w[|k| + 1..] == v;
  }

  /** The first separator of k + rest is the head of rest when k has none. */
  lemma {:induction false} IndexOfAfter(k: string, rest: string, sep: char)
    requires sep !in k && rest != [] && rest[0] == sep
    ensures IndexOf(k + rest, sep) == Some(|k|)
    decreases |k|
  {
    if k != [] {
      assert (k + rest)[1..] == k[1..] + rest;
      IndexOfAfter(k[1..], rest, sep);
    } else {
      assert k + rest == rest;
    }
  }

  /** The words of a staging directive. */
  function StagingWords(cmd: string, t: string, dst: string, src: string): seq<string> {
    ["#DW", cmd, "type=" + t, "destination=" + dst, "source=" + src]
  }

  lemma PairIsWord(k: string, v: string)
    requires IsWord(k) && (v == [] || IsWord(v)) && !IsSpace('=')
    ensures IsWord(k + "=" + v)
  {
    var w := k + "=" + v;
    forall i | 0 <= i < |w| ensures !IsSpace(w[i]) {
      if i < |k| {
        assert w[i] == k[i];
      } else if i > |k| {
        assert w[i] == v[i - |k| - 1];
      }
    }
  }

  /**
   * The valid directives of the test, written out as words: with a type
   * that the pattern matches and paths without white space, the old
   * parser accepts the directive.
   */
  lemma StagingDirectiveValid(cmd: string, t: string, dst: string, src: string, re: Matcher)
    requires cmd == "stage_in" || cmd == "stage_out"
    requires IsWord(t) && IsWord(dst) && IsWord(src)
    requires re(TypePattern, t) == Matched
    ensures var dwd := Unwords(StagingWords(cmd, t, dst, src));
      Fields(dwd) == StagingWords(cmd, t, dst, src) && DirectiveValid(dwd, StagingRules(), re)
  {
    StagingParse(cmd, t, dst, src);
    StagingAccepted(cmd, t, dst, src, re);
  }

  /** The old parser reads a staging directive back into its arguments. */
  lemma StagingParse(cmd: string, t: string, dst: string, src: string)
    requires IsWord(cmd) && IsWord(t) && IsWord(dst) && IsWord(src)
    ensures var dwd := Unwords(StagingWords(cmd, t, dst, src));
      && Fields(dwd) == StagingWords(cmd, t, dst, src)
      && ParseArgs(dwd) == Success(StagingArgs(cmd, t, dst, src))
  {
    var ws := StagingWords(cmd, t, dst, src);
    StagingWordsAreWords(cmd, t, dst, src);
    FieldsOfUnwords(ws);
    var dwd := Unwords(ws);
    var tokens := ws[2..];
    assert tokens == ["type=" + t, "destination=" + dst, "source=" + src];
    assert ParseArgs(dwd) == Success(Assign(tokens, map["command" := cmd]));
    StagingAssign(cmd, t, dst, src);
  }

  lemma StagingAssign(cmd: string, t: string, dst: string, src: string)
    ensures Assign(["type=" + t, "destination=" + dst, "source=" + src], map["command" := cmd])
      == StagingArgs(cmd, t, dst, src)
  {
    var m1 := map["command" := cmd]["type" := t];
    var m2 := m1["destination" := dst];
    var m3 := m2["source" := src];
    var w1, w2, w3 := "type=" + t, "destination=" + dst, "source=" + src;
    assert w1 == "type" + "=" + t && w2 == "destination" + "=" + dst && w3 == "source" + "=" + src;
    AssignPair("type", t, [w2, w3], map["command" := cmd]);
    AssignPair("destination", dst, [w3], m1);
    AssignPair("source", src, [], m2);
    assert [w1, w2, w3] == [w1] + [w2, w3] && [w2, w3] == [w2] + [w3] && [w3] == [w3] + [];
    assert Assign([], m3) == m3;
    assert m3 == StagingArgs(cmd, t, dst, src);
  }

  /** Assigning a `key=value` word stores the value under the key. */
  lemma AssignPair(k: string, v: string, rest: seq<string>, args: map<string, string>)
    requires '=' !in k
    ensures Assign([k + "=" + v] + rest, args) == Assign(rest, args[k := v])
  {
    KeyValuePair(k, v);
    assert ([k + "=" + v] + rest)[1..] == rest;
  }

  lemma StagingWordsAreWords(cmd: string, t: string, dst: string, src: string)
    requires IsWord(cmd) && IsWord(t) && IsWord(dst) && IsWord(src)
    ensures var ws := StagingWords(cmd, t, dst, src);
      forall i :: 0 <= i < |ws| ==> IsWord(ws[i])
  {
    PairIsWord("type", t);
    PairIsWord("destination", dst);
    PairIsWord("source", src);
    assert IsWord("#DW");
  }
}
