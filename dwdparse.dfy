/**
 * The `#DW` directive parser and validator of utils/dwdparse/dwdparse.go.
 *
 * A directive is a line such as `#DW jobdw type=xfs capacity=10GB name=a`.
 * It is split on white space into words: `#DW`, the command, then
 * `key[=value]` arguments. A rule (a DWDirectiveRuleSpec) names one command
 * and the arguments that command accepts; `Validate` checks a list of
 * directives against a list of rules and reports every (directive, rule)
 * pair that matched.
 */
module DwdParse {
  import opened Base
  import opened GoStrings
  import opened Regexp

  /** One accepted argument of a command (DWDirectiveRuleDef). */
  datatype RuleDef = RuleDef(
    key: string,
    valueType: string,      // "integer", "bool" or "string"; anything else is refused
    pattern: string,        // for "string": a regular expression; for "bool": "" disables the check
    min: int,               // 0 means no lower bound
    max: int,               // 0 means no upper bound
    isRequired: bool,
    isValueRequired: bool,
    uniqueWithin: string)   // "" means no uniqueness check

  /** A rule for one `#DW` command (DWDirectiveRuleSpec). */
  datatype RuleSpec = RuleSpec(
    command: string,
    driverLabel: string,
    watchStates: string,
    ruleDefs: seq<RuleDef>)

  /** The errors the parser reports, one constructor per message. */
  datatype ParseError =
    | MissingPrefix(directive: string)
    | RepeatedArgument(key: string, directive: string)
    | UnsupportedCommand(command: string)
    | NoCommand
    | CommandMismatch(command: string, ruleCommand: string)
    | UnsupportedArgument(key: string)
    | MalformedArgument(key: string, value: string)
    | InvalidInteger(key: string, value: string)
    | AboveMaximum(max: int, key: string, value: string)
    | BelowMinimum(min: int, key: string, value: string)
    | InvalidBool(key: string, value: string)
    | InvalidRegexp(pattern: string)
    | InvalidArgument(key: string, value: string)
    | UnsupportedValueType(valueType: string)
    | NotUnique(value: string, within: string)
    | MissingArgument(key: string)
    | InvalidDirective(directive: string)
  {
    /** The text of the Go error value. */
    function Message(): string {
      match this
      case MissingPrefix(d) => "missing '#DW' prefix in directive '" + d + "'"
      case RepeatedArgument(k, d) => "repeated argument '" + k + "' in directive '" + d + "'"
      case UnsupportedCommand(c) => UnsupportedCommandPrefix + c + "'"
      case NoCommand => "no command in arguments"
      case CommandMismatch(c, rc) => "command '" + c + "' does not match rule '" + rc + "'"
      case UnsupportedArgument(k) => "unsupported argument - " + k
      case MalformedArgument(k, v) => "malformed keyword[=value]: " + k + "=" + v
      case InvalidInteger(k, v) => "invalid integer argument: " + k + "=" + v
      case AboveMaximum(m, k, v) => "specified integer exceeds maximum " + Itoa(m) + ": " + k + "=" + v
      case BelowMinimum(m, k, v) => "specified integer smaller than minimum " + Itoa(m) + ": " + k + "=" + v
      case InvalidBool(k, v) => "invalid bool argument: " + k + "=" + v
      case InvalidRegexp(p) => "invalid regexp in rule: " + p
      case InvalidArgument(k, v) => "invalid argument: " + k + "=" + v
      case UnsupportedValueType(t) => "unsupported value type: " + t
      case NotUnique(v, w) => "Value '" + v + "' must be unique within '" + w + "'"
      case MissingArgument(k) => "missing argument: " + k
      case InvalidDirective(d) => "invalid directive '" + d + "'"
    }
  }

  const UnsupportedCommandPrefix := "unsupported Command: '"

  /** The message of the unsupported-command error names the command, which can be read back from it. */
  lemma UnsupportedCommandMessage(command: string)
    ensures var m := UnsupportedCommand(command).Message();
      && |m| == |UnsupportedCommandPrefix| + |command| + 1
      && m[..|UnsupportedCommandPrefix|] == UnsupportedCommandPrefix
      && m[|UnsupportedCommandPrefix|..|m| - 1] == command
      && m[|m| - 1] == '\''
  {
    var m := UnsupportedCommand(command).Message();
    assert m == UnsupportedCommandPrefix + command + "'";
  }

  /** Reading a Go map: a missing key yields the zero value "". */
  function Lookup(m: map<string, string>, k: string): string {
    if k in m then m[k] else ""
  }

  // ---------------------------------------------------------------------
  // Arguments of one directive (BuildArgsMap)
  // ---------------------------------------------------------------------

  /**
   * The key and value of one `key[=value]` word: a word without `=` is a
   * flag whose value is "true"; otherwise the key ends at the first `=`.
   */
  function KeyValue(token: string): (string, string) {
    var parts := Split(token, '=');
    if |parts| == 1 then (parts[0], "true")
    else if |parts| == 2 then (parts[0], parts[1])
    else
      SplitOfToken(token, '=');
      var kv := SplitN(token, '=', 2);
      (parts[0], kv[1])
  }

  lemma KeyValueCut(token: string)
    ensures '=' !in token ==> KeyValue(token) == (token, "true")
    ensures '=' in token ==>
      var i := IndexOf(token, '=').value;
      KeyValue(token) == (token[..i], token[i + 1..])
  {
    SplitOfToken(token, '=');
  }

  function TokenKey(token: string): string {
    KeyValue(token).0
  }

  /** No argument word repeats a key already in `args`, nor one of an earlier word. */
  predicate FreshKeys(tokens: seq<string>, args: map<string, string>) {
    && (forall i :: 0 <= i < |tokens| ==> TokenKey(tokens[i]) !in args)
    && (forall i, j :: 0 <= i < j < |tokens| ==> TokenKey(tokens[i]) != TokenKey(tokens[j]))
  }

  /** Adds the argument words to `args`, refusing a repeated key. */
  function CollectArgs(tokens: seq<string>, args: map<string, string>, dwd: string): Result<map<string, string>, ParseError>
    decreases |tokens|
  {
    if tokens == [] then Success(args)
    else
      var kv := KeyValue(tokens[0]);
      if kv.0 in args then Failure(RepeatedArgument(kv.0, dwd))
      else CollectArgs(tokens[1..], args[kv.0 := kv.1], dwd)
  }

  /** A directive that is `#DW` alone, whose missing command word the Go code indexes and panics on. */
  predicate Bare(dwd: string) {
    var fs := Fields(dwd);
    |fs| == 1 && fs[0] == "#DW"
  }

  /** The argument map of a directive: "command" is the second word, the rest are `key[=value]` words. */
  function ParseDirective(dwd: string): Result<map<string, string>, ParseError>
    requires !Bare(dwd)  // the Go code indexes the missing command word and panics
  {
    var fs := Fields(dwd);
    if |fs| == 0 || fs[0] != "#DW" then Failure(MissingPrefix(dwd))
    else CollectArgs(fs[2..], map["command" := fs[1]], dwd)
  }

  lemma {:induction false} CollectArgsAccepts(tokens: seq<string>, args: map<string, string>, dwd: string)
    ensures CollectArgs(tokens, args, dwd).Success? <==> FreshKeys(tokens, args)
    ensures CollectArgs(tokens, args, dwd).Failure? ==> CollectArgs(tokens, args, dwd).error.RepeatedArgument?
    decreases |tokens|
  {
    if tokens != [] {
      var kv := KeyValue(tokens[0]);
      var rest := tokens[1..];
      if kv.0 !in args {
        var args' := args[kv.0 := kv.1];
        CollectArgsAccepts(rest, args', dwd);
        FreshKeysCons(tokens, args);
      }
    }
  }

  lemma FreshKeysCons(tokens: seq<string>, args: map<string, string>)
    requires tokens != []
    ensures var kv := KeyValue(tokens[0]);
      FreshKeys(tokens, args) <==> kv.0 !in args && FreshKeys(tokens[1..], args[kv.0 := kv.1])
  {
    var kv := KeyValue(tokens[0]);
    var rest := tokens[1..];
    if kv.0 !in args {
      var args' := args[kv.0 := kv.1];
      if FreshKeys(tokens, args) {
        forall i | 0 <= i < |rest| ensures TokenKey(rest[i]) !in args' {
          assert rest[i] == tokens[i + 1];
          assert TokenKey(tokens[0]) != TokenKey(tokens[i + 1]);
        }
        forall i, j | 0 <= i < j < |rest| ensures TokenKey(rest[i]) != TokenKey(rest[j]) {
          assert rest[i] == tokens[i + 1] && rest[j] == tokens[j + 1];
        }
      }
      if FreshKeys(rest, args') {
        forall i, j | 0 <= i < j < |tokens| ensures TokenKey(tokens[i]) != TokenKey(tokens[j]) {
          assert tokens[j] == rest[j - 1];
          if i > 0 {
            assert tokens[i] == rest[i - 1];
          } else {
            assert TokenKey(rest[j - 1]) !in args';
          }
        }
        forall i | 0 <= i < |tokens| ensures TokenKey(tokens[i]) !in args {
          if i > 0 {
            assert tokens[i] == rest[i - 1];
            assert TokenKey(rest[i - 1]) !in args';
          }
        }
      }
    }
  }

  /** The keys of some argument words. */
  function TokenKeys(tokens: seq<string>): set<string> {
    set i | 0 <= i < |tokens| :: TokenKey(tokens[i])
  }

  lemma CollectArgsContents(tokens: seq<string>, args: map<string, string>, dwd: string)
    requires CollectArgs(tokens, args, dwd).Success?
    ensures var m := CollectArgs(tokens, args, dwd).value;
      && m.Keys == args.Keys + TokenKeys(tokens)
      && (forall k :: k in args ==> m[k] == args[k])
      && (forall i :: 0 <= i < |tokens| ==> m[TokenKey(tokens[i])] == KeyValue(tokens[i]).1)
  {
    CollectArgsKeys(tokens, args, dwd);
    CollectArgsKeeps(tokens, args, dwd);
    CollectArgsStores(tokens, args, dwd);
  }

  /** The keys of the collected map are those given plus those of the words. */
  lemma {:induction false} CollectArgsKeys(tokens: seq<string>, args: map<string, string>, dwd: string)
    requires CollectArgs(tokens, args, dwd).Success?
    ensures CollectArgs(tokens, args, dwd).value.Keys == args.Keys + TokenKeys(tokens)
    decreases |tokens|
  {
    if tokens != [] {
      var kv := KeyValue(tokens[0]);
      var rest := tokens[1..];
      CollectArgsKeys(rest, args[kv.0 := kv.1], dwd);
      TokenKeysCons(tokens);
    }
  }

  lemma TokenKeysCons(tokens: seq<string>)
    requires tokens != []
    ensures TokenKeys(tokens) == {TokenKey(tokens[0])} + TokenKeys(tokens[1..])
  {
    var rest := tokens[1..];
    forall k | k in TokenKeys(tokens) ensures k in {TokenKey(tokens[0])} + TokenKeys(rest) {
      var i :| 0 <= i < |tokens| && TokenKey(tokens[i]) == k;
      if i > 0 {
        assert tokens[i] == rest[i - 1];
      }
    }
    forall k | k in TokenKeys(rest) ensures k in TokenKeys(tokens) {
      var i :| 0 <= i < |rest| && TokenKey(rest[i]) == k;
      assert tokens[i + 1] == rest[i];
    }
  }

  /** Collecting keeps what `args` held. */
  lemma {:induction false} CollectArgsKeeps(tokens: seq<string>, args: map<string, string>, dwd: string)
    requires CollectArgs(tokens, args, dwd).Success?
    ensures forall k :: k in args ==> k in CollectArgs(tokens, args, dwd).value && CollectArgs(tokens, args, dwd).value[k] == args[k]
    decreases |tokens|
  {
    if tokens != [] {
      var kv := KeyValue(tokens[0]);
      CollectArgsKeeps(tokens[1..], args[kv.0 := kv.1], dwd);
    }
  }

  /** Collecting stores each word's value under its key. */
  lemma {:induction false} CollectArgsStores(tokens: seq<string>, args: map<string, string>, dwd: string)
    requires CollectArgs(tokens, args, dwd).Success?
    ensures forall i :: 0 <= i < |tokens| ==>
      && TokenKey(tokens[i]) in CollectArgs(tokens, args, dwd).value
      && CollectArgs(tokens, args, dwd).value[TokenKey(tokens[i])] == KeyValue(tokens[i]).1
    decreases |tokens|
  {
    if tokens != [] {
      var kv := KeyValue(tokens[0]);
      var rest := tokens[1..];
      var args' := args[kv.0 := kv.1];
      CollectArgsStores(rest, args', dwd);
      CollectArgsKeeps(rest, args', dwd);
      var m := CollectArgs(tokens, args, dwd).value;
      assert m == CollectArgs(rest, args', dwd).value;
      forall i | 0 <= i < |tokens| ensures TokenKey(tokens[i]) in m && m[TokenKey(tokens[i])] == KeyValue(tokens[i]).1 {
        if i > 0 {
          assert tokens[i] == rest[i - 1];
        }
      }
    }
  }

  /**
   * What BuildArgsMap accepts: a directive is refused for a missing `#DW`
   * exactly when its first word is not `#DW`, and otherwise exactly when
   * an argument repeats a key (the key "command" included).
   */
  lemma ParseDirectiveAccepts(dwd: string)
    requires !Bare(dwd)
    ensures var fs := Fields(dwd);
      ParseDirective(dwd) == Failure(MissingPrefix(dwd)) <==> |fs| == 0 || fs[0] != "#DW"
    ensures var fs := Fields(dwd);
      ParseDirective(dwd).Success? <==> |fs| >= 2 && fs[0] == "#DW" && FreshKeys(fs[2..], map["command" := fs[1]])
  {
    var fs := Fields(dwd);
    if |fs| > 0 && fs[0] == "#DW" {
      CollectArgsAccepts(fs[2..], map["command" := fs[1]], dwd);
    }
  }

  /**
   * An accepted directive maps "command" to its second word and each
   * argument key to its value; it holds no other key.
   */
  lemma ParseDirectiveArgs(dwd: string)
    requires !Bare(dwd)
    requires ParseDirective(dwd).Success?
    ensures var fs := Fields(dwd);
      var args := ParseDirective(dwd).value;
      && |fs| >= 2
      && args.Keys == {"command"} + TokenKeys(fs[2..])
      && args["command"] == fs[1]
      && (forall i :: 2 <= i < |fs| ==> args[TokenKey(fs[i])] == KeyValue(fs[i]).1)
  {
    var fs := Fields(dwd);
    assert |fs| >= 2 && fs[0] == "#DW";
    var tokens := fs[2..];
    var given := map["command" := fs[1]];
    assert ParseDirective(dwd) == CollectArgs(tokens, given, dwd);
    var args := CollectArgs(tokens, given, dwd).value;
    CollectArgsKeys(tokens, given, dwd);
    CollectArgsKeeps(tokens, given, dwd);
    CollectArgsStores(tokens, given, dwd);
    forall i | 2 <= i < |fs| ensures args[TokenKey(fs[i])] == KeyValue(fs[i]).1 {
      assert fs[i] == tokens[i - 2];
    }
  }

  /** Parsing the directive written out from a command and argument words gives back those words. */
  lemma ParseRendered(command: string, tokens: seq<string>)
    requires IsWord(command)
    requires forall i :: 0 <= i < |tokens| ==> IsWord(tokens[i])
    ensures var dwd := Unwords(["#DW", command] + tokens);
      && Fields(dwd) == ["#DW", command] + tokens
      && ParseDirective(dwd) == CollectArgs(tokens, map["command" := command], dwd)
  {
    var ws := ["#DW", command] + tokens;
    DirectiveWords(command, tokens);
    FieldsOfUnwords(ws);
    var dwd := Unwords(ws);
    assert |Fields(dwd)| >= 2;
    assert Fields(dwd)[2..] == tokens;
  }

  lemma DirectiveWords(command: string, tokens: seq<string>)
    requires IsWord(command)
    requires forall i :: 0 <= i < |tokens| ==> IsWord(tokens[i])
    ensures var ws := ["#DW", command] + tokens;
      forall i :: 0 <= i < |ws| ==> IsWord(ws[i])
  {
    var ws := ["#DW", command] + tokens;
    assert IsWord(['#', 'D', 'W']);
    forall i | 0 <= i < |ws| ensures IsWord(ws[i]) {
      if i >= 2 {
        assert ws[i] == tokens[i - 2];
      }
    }
  }

  method BuildArgsMap(dwd: string) returns (r: Result<map<string, string>, ParseError>)
    requires !Bare(dwd)
    ensures r == ParseDirective(dwd)
  {
    var dwdArgs := Fields(dwd);
    if |dwdArgs| == 0 || dwdArgs[0] != "#DW" {
      return Failure(MissingPrefix(dwd));
    }
    var argsMap := map["command" := dwdArgs[1]];
    var i := 2;
    while i < |dwdArgs|
      invariant 2 <= i <= |dwdArgs|
      invariant CollectArgs(dwdArgs[i..], argsMap, dwd) == ParseDirective(dwd)
    {
      assert dwdArgs[i..][1..] == dwdArgs[i + 1..];
      var keyValue := Split(dwdArgs[i], '=');
      SplitOfToken(dwdArgs[i], '=');
      assert KeyValue(dwdArgs[i]).0 == keyValue[0];
      if keyValue[0] in argsMap {
        return Failure(RepeatedArgument(keyValue[0], dwd));
      }
      if |keyValue| == 1 {
        argsMap := argsMap[keyValue[0] := "true"];
      } else if |keyValue| == 2 {
        argsMap := argsMap[keyValue[0] := keyValue[1]];
      } else {
        var keyValue' := SplitN(dwdArgs[i], '=', 2);
        argsMap := argsMap[keyValue'[0] := keyValue'[1]];
      }
      i := i + 1;
    }
    return Success(argsMap);
  }

  // ---------------------------------------------------------------------
  // Rules of one command (BuildRulesMap)
  // ---------------------------------------------------------------------

  /** The rule definitions by key; of two definitions with one key the later wins. */
  function RuleTable(defs: seq<RuleDef>): map<string, RuleDef>
    decreases |defs|
  {
    if defs == [] then map[]
    else
      var last := defs[|defs| - 1];
      RuleTable(defs[..|defs| - 1])[last.key := last]
  }

  /** The table holds exactly the keys of the definitions, each under its own key. */
  lemma {:induction false} RuleTableKeys(defs: seq<RuleDef>)
    ensures forall k :: k in RuleTable(defs) <==> exists i :: 0 <= i < |defs| && defs[i].key == k
    ensures forall k :: k in RuleTable(defs) ==> RuleTable(defs)[k].key == k
    decreases |defs|
  {
    if defs != [] {
      var n := |defs| - 1;
      var init := defs[..n];
      RuleTableKeys(init);
      forall k | k in RuleTable(defs) && k != defs[n].key
        ensures exists i :: 0 <= i < |defs| && defs[i].key == k
      {
        assert k in RuleTable(init);
        var i :| 0 <= i < n && init[i].key == k;
        assert defs[i] == init[i];
      }
      forall k | exists i :: 0 <= i < |defs| && defs[i].key == k
        ensures k in RuleTable(defs)
      {
        var i :| 0 <= i < |defs| && defs[i].key == k;
        if i < n {
          assert init[i] == defs[i];
        }
      }
    }
  }

  /** Of two definitions with one key the later wins: a key's entry is its last definition. */
  lemma {:induction false} RuleTableLastWins(defs: seq<RuleDef>, i: nat)
    requires i < |defs|
    requires forall j :: i < j < |defs| ==> defs[j].key != defs[i].key
    ensures defs[i].key in RuleTable(defs) && RuleTable(defs)[defs[i].key] == defs[i]
    decreases |defs|
  {
    var n := |defs| - 1;
    if i < n {
      var init := defs[..n];
      assert init[i] == defs[i];
      RuleTableLastWins(init, i);
    }
  }

  /** A rule has a table exactly when it has definitions. */
  lemma RuleTableEmpty(defs: seq<RuleDef>)
    ensures RuleTable(defs) == map[] <==> defs == []
  {
    if defs != [] {
      assert defs[|defs| - 1].key in RuleTable(defs);
    }
  }

  method BuildRulesMap(rule: RuleSpec, cmd: string) returns (r: Result<map<string, RuleDef>, ParseError>)
    ensures r.Failure? <==> rule.ruleDefs == []
    ensures r.Failure? ==> r.error == UnsupportedCommand(cmd)
    ensures r.Success? ==> r.value == RuleTable(rule.ruleDefs)
  {
    var rulesMap := map[];
    for i := 0 to |rule.ruleDefs|
      invariant rulesMap == RuleTable(rule.ruleDefs[..i])
    {
      assert rule.ruleDefs[..i + 1][..i] == rule.ruleDefs[..i];
      rulesMap := rulesMap[rule.ruleDefs[i].key := rule.ruleDefs[i]];
    }
    assert rule.ruleDefs[..|rule.ruleDefs|] == rule.ruleDefs;
    RuleTableEmpty(rule.ruleDefs);
    if |rulesMap| == 0 {
      return Failure(UnsupportedCommand(cmd));
    }
    return Success(rulesMap);
  }

  // ---------------------------------------------------------------------
  // Arguments against a rule (ValidateArgs)
  // ---------------------------------------------------------------------

  /**
   * One character of a case-insensitive Go regular expression matching
   * the lower-case ASCII letter `l`: Go's `(?i)` accepts every character
   * in the simple case-folding orbit of `l`. For the letters of "true" and
   * "false" that is the letter in either case, and for `s` also U+017F
   * LATIN SMALL LETTER LONG S.
   */
  predicate FoldsTo(c: char, l: char) {
    ToLowerChar(c) == l || (l == 's' && c == '\U{017F}')
  }

  /** `v` matches the literal `w` under `(?i)`, character by character. */
  predicate FoldMatch(v: string, w: string) {
    |v| == |w| && forall i :: 0 <= i < |v| ==> FoldsTo(v[i], w[i])
  }

  /** The bool matcher `(?i)^(true|false)$`. */
  predicate IsBoolWord(v: string) {
    FoldMatch(v, "true") || FoldMatch(v, "false")
  }

  /**
   * The bool matcher accepts "true" and "false" in any ASCII letter case,
   * and, beyond ASCII, exactly the spellings of "false" that write its `s`
   * as a long s.
   */
  lemma BoolWordCases(v: string)
    ensures ToLower(v) == "true" || ToLower(v) == "false" ==> IsBoolWord(v)
    ensures IsBoolWord(v) && '\U{017F}' !in v ==> ToLower(v) == "true" || ToLower(v) == "false"
    ensures IsBoolWord("fal\U{017F}e") && ToLower("fal\U{017F}e") != "false"
  {
    var l := ToLower("fal\U{017F}e");
    assert l[3] == '\U{017F}';
    if ToLower(v) == "true" || ToLower(v) == "false" {
      var w := ToLower(v);
      assert forall i :: 0 <= i < |v| ==> FoldsTo(v[i], w[i]);
    }
    if IsBoolWord(v) && '\U{017F}' !in v {
      var w := if FoldMatch(v, "true") then "true" else "false";
      assert forall i :: 0 <= i < |v| ==> ToLower(v)[i] == w[i];
      assert ToLower(v) == w;
    }
  }

  /**
   * The check of one argument value against its rule definition: the
   * value-required check, then the check of its type.
   */
  function CheckValue(rd: RuleDef, key: string, v: string, re: Matcher): (r: Option<ParseError>)
    ensures rd.isValueRequired && v == "" ==> r == Some(MalformedArgument(key, v))
    ensures !(rd.isValueRequired && v == "") ==>
      && (rd.valueType == "integer" ==>
            (r.None? <==> Atoi(v).Some? && (rd.max != 0 ==> Atoi(v).value <= rd.max)
                                        && (rd.min != 0 ==> rd.min <= Atoi(v).value)))
      && (rd.valueType == "bool" ==> (r.None? <==> rd.pattern == "" || IsBoolWord(v)))
      && (rd.valueType == "string" ==> (r.None? <==> rd.pattern == "" || re(rd.pattern, v) == Matched))
      && (rd.valueType !in {"integer", "bool", "string"} ==> r == Some(UnsupportedValueType(rd.valueType)))
    ensures rd.valueType == "string" && rd.pattern != "" && re(rd.pattern, v) == BadPattern && !(rd.isValueRequired && v == "") ==>
      r == Some(InvalidRegexp(rd.pattern))
  {
    if rd.isValueRequired && |v| == 0 then Some(MalformedArgument(key, v))
    else if rd.valueType == "integer" then
      match Atoi(v)
      case None => Some(InvalidInteger(key, v))
      case Some(i) =>
        if rd.max != 0 && i > rd.max then Some(AboveMaximum(rd.max, key, v))
        else if rd.min != 0 && i < rd.min then Some(BelowMinimum(rd.min, key, v))
        else None
    else if rd.valueType == "bool" then
      if rd.pattern != "" && !IsBoolWord(v) then Some(InvalidBool(key, v)) else None
    else if rd.valueType == "string" then
      if rd.pattern == "" then None
      else
        match re(rd.pattern, v)
        case Matched => None
        case NotMatched => Some(InvalidArgument(key, v))
        case BadPattern => Some(InvalidRegexp(rd.pattern))
    else Some(UnsupportedValueType(rd.valueType))
  }

  /** Argument `k` is one whose value must be unique within a scope. */
  predicate Scoped(table: map<string, RuleDef>, args: map<string, string>, k: string) {
    k in args && k != "command" && k in table && table[k].uniqueWithin != ""
  }

  /** The name under which a scoped value is remembered: `<uniqueWithin>/<value>`. */
  function ScopedName(table: map<string, RuleDef>, args: map<string, string>, k: string): string
    requires Scoped(table, args, k)
  {
    table[k].uniqueWithin + "/" + args[k]
  }

  /** The names the arguments `ks` claim. */
  function NamesIn(table: map<string, RuleDef>, args: map<string, string>, ks: set<string>): set<string> {
    set k | k in ks && Scoped(table, args, k) :: ScopedName(table, args, k)
  }

  /** Every name the arguments claim under the rule. */
  function UniqueNames(rule: RuleSpec, args: map<string, string>): set<string> {
    NamesIn(RuleTable(rule.ruleDefs), args, args.Keys)
  }

  /** Each of the arguments `ks` other than the command has a definition its value passes. */
  ghost predicate ValuesPass(table: map<string, RuleDef>, args: map<string, string>, ks: set<string>, re: Matcher) {
    forall k :: k in ks && k in args && k != "command" ==> k in table && CheckValue(table[k], k, args[k], re).None?
  }

  /** No name the arguments `ks` claim is in `seen`. */
  ghost predicate NamesFresh(table: map<string, RuleDef>, args: map<string, string>, ks: set<string>, seen: set<string>) {
    forall k :: k in ks && Scoped(table, args, k) ==> ScopedName(table, args, k) !in seen
  }

  /** No two of the arguments `ks` claim the same name. */
  ghost predicate NamesDistinct(table: map<string, RuleDef>, args: map<string, string>, ks: set<string>) {
    forall k1, k2 :: k1 in ks && k2 in ks && Scoped(table, args, k1) && Scoped(table, args, k2) && k1 != k2 ==>
      ScopedName(table, args, k1) != ScopedName(table, args, k2)
  }

  /** Every required definition has its argument. */
  ghost predicate RequiredPresent(table: map<string, RuleDef>, args: map<string, string>) {
    forall k :: k in table && table[k].isRequired ==> k in args && k != "command"
  }

  /**
   * When ValidateArgs accepts `args` for `rule`, given the names `seen`
   * claimed so far: the command is present and is the rule's, the rule
   * has definitions, every argument has a definition its value passes,
   * scoped values are new and distinct, and every required definition
   * has its argument.
   */
  ghost predicate ArgsAccepted(rule: RuleSpec, args: map<string, string>, seen: set<string>, re: Matcher) {
    var table := RuleTable(rule.ruleDefs);
    && "command" in args && args["command"] == rule.command
    && rule.ruleDefs != []
    && ValuesPass(table, args, args.Keys, re)
    && NamesFresh(table, args, args.Keys, seen)
    && NamesDistinct(table, args, args.Keys)
    && RequiredPresent(table, args)
  }

  lemma NamesInMonotone(table: map<string, RuleDef>, args: map<string, string>, ks: set<string>, ks': set<string>)
    requires ks <= ks'
    ensures NamesIn(table, args, ks) <= NamesIn(table, args, ks')
  {
  }

  /** Visiting an argument that claims no name keeps every fact about the claimed names. */
  lemma VisitUnscoped(table: map<string, RuleDef>, args: map<string, string>, ks: set<string>, seen: set<string>, k: string)
    requires !Scoped(table, args, k)
    requires NamesFresh(table, args, ks, seen) && NamesDistinct(table, args, ks)
    ensures NamesFresh(table, args, ks + {k}, seen) && NamesDistinct(table, args, ks + {k})
    ensures NamesIn(table, args, ks + {k}) == NamesIn(table, args, ks)
  {
  }

  /** Visiting an argument whose name is new adds that name and keeps the names fresh and distinct. */
  lemma VisitScoped(table: map<string, RuleDef>, args: map<string, string>, ks: set<string>, seen: set<string>, k: string)
    requires Scoped(table, args, k) && k !in ks
    requires ScopedName(table, args, k) !in seen + NamesIn(table, args, ks)
    requires NamesFresh(table, args, ks, seen) && NamesDistinct(table, args, ks)
    ensures NamesFresh(table, args, ks + {k}, seen) && NamesDistinct(table, args, ks + {k})
    ensures NamesIn(table, args, ks + {k}) == NamesIn(table, args, ks) + {ScopedName(table, args, k)}
  {
    forall k2 | k2 in ks && Scoped(table, args, k2)
      ensures ScopedName(table, args, k2) != ScopedName(table, args, k)
    {
      assert ScopedName(table, args, k2) in NamesIn(table, args, ks);
    }
  }

  /** An argument without a definition, or whose value its definition refuses, fails ValuesPass. */
  lemma ValueRefused(table: map<string, RuleDef>, args: map<string, string>, k: string, re: Matcher)
    requires k in args && k != "command"
    requires k !in table || CheckValue(table[k], k, args[k], re).Some?
    ensures !ValuesPass(table, args, args.Keys, re)
  {
  }

  /** An argument that is the command, or whose value its definition accepts, keeps ValuesPass. */
  lemma ValueAccepted(table: map<string, RuleDef>, args: map<string, string>, ks: set<string>, k: string, re: Matcher)
    requires ValuesPass(table, args, ks, re)
    requires k == "command" || (k in table && k in args && CheckValue(table[k], k, args[k], re).None?)
    ensures ValuesPass(table, args, ks + {k}, re)
  {
  }

  /** An argument whose name was claimed before, by an earlier directive or another argument, is refused. */
  lemma NameTaken(table: map<string, RuleDef>, args: map<string, string>, seen: set<string>, ks: set<string>, k: string)
    requires ks <= args.Keys && k !in ks
    requires Scoped(table, args, k)
    requires ScopedName(table, args, k) in seen + NamesIn(table, args, ks)
    ensures !(NamesFresh(table, args, args.Keys, seen) && NamesDistinct(table, args, args.Keys))
  {
    var name := ScopedName(table, args, k);
    if name !in seen {
      var k2 :| k2 in ks && Scoped(table, args, k2) && ScopedName(table, args, k2) == name;
      assert k2 != k;
    }
  }

  /**
   * Validates `args` against `rule`. `seen` holds the scoped names claimed
   * by earlier directives; the names after the call are returned. The
   * arguments are visited in an unspecified order, as Go visits a map, so
   * of several faults which one is reported is left open.
   */
  method ValidateArgs(rule: RuleSpec, args: map<string, string>, seen: set<string>, re: Matcher)
    returns (err: Option<ParseError>, seen': set<string>)
    ensures err.None? <==> ArgsAccepted(rule, args, seen, re)
    ensures err.None? ==> seen' == seen + UniqueNames(rule, args)
    ensures seen <= seen' <= seen + UniqueNames(rule, args)
  {
    seen' := seen;
    if "command" !in args {
      return Some(NoCommand), seen';
    }
    var command := args["command"];
    if command != rule.command {
      return Some(CommandMismatch(command, rule.command)), seen';
    }
    var rulesMap := BuildRulesMap(rule, command);
    if rulesMap.Failure? {
      return Some(rulesMap.error), seen';
    }
    var table := rulesMap.value;
    var argToRuleMap;
    err, seen', argToRuleMap := CheckArguments(table, args, seen, re);
    if err.Some? {
      return err, seen';
    }
    RuleTableKeys(rule.ruleDefs);
    err := CheckRequired(table, args, argToRuleMap);
  }

  /**
   * The loop of ValidateArgs over the arguments: each argument other than
   * the command must have a definition its value passes, and its scoped
   * name must not have been claimed. Returns the claimed names and the
   * map from each matched definition to its argument.
   */
  method CheckArguments(table: map<string, RuleDef>, args: map<string, string>, seen: set<string>, re: Matcher)
    returns (err: Option<ParseError>, seen': set<string>, argToRuleMap: map<RuleDef, string>)
    ensures err.None? <==>
      ValuesPass(table, args, args.Keys, re) && NamesFresh(table, args, args.Keys, seen) && NamesDistinct(table, args, args.Keys)
    ensures err.None? ==> seen' == seen + NamesIn(table, args, args.Keys)
    ensures seen <= seen' <= seen + NamesIn(table, args, args.Keys)
    ensures err.None? ==> forall k :: k in args && k != "command" ==> k in table && table[k] in argToRuleMap
    ensures Matches(table, args, argToRuleMap)
  {
    seen' := seen;
    argToRuleMap := map[];
    var pending := args.Keys;
    while pending != {}
      invariant pending <= args.Keys
      invariant Visited(table, args, args.Keys - pending, seen, seen', argToRuleMap, re)
      decreases pending
    {
      var k :| k in pending;
      ghost var done := args.Keys - pending;
      NamesInMonotone(table, args, done + {k}, args.Keys);
      err, seen', argToRuleMap := CheckArgument(table, args, seen, done, seen', argToRuleMap, k, re);
      if err.Some? {
        return err, seen', argToRuleMap;
      }
      pending := pending - {k};
      assert args.Keys - pending == done + {k};
    }
    return None, seen', argToRuleMap;
  }

  /** Each definition in `argToRuleMap` is mapped to an argument it defines. */
  predicate Matches(table: map<string, RuleDef>, args: map<string, string>, argToRuleMap: map<RuleDef, string>) {
    forall rd :: rd in argToRuleMap ==>
      var k := argToRuleMap[rd]; k in args && k != "command" && k in table && table[k] == rd
  }

  /**
   * What the loop of ValidateArgs over the arguments knows once it has
   * accepted the arguments `done`: their values pass, `seen'` adds their
   * names to those of earlier directives `seen`, those names are fresh
   * and distinct, and each of their definitions is mapped to it.
   */
  ghost predicate Visited(table: map<string, RuleDef>, args: map<string, string>, done: set<string>,
                          seen: set<string>, seen': set<string>, argToRuleMap: map<RuleDef, string>, re: Matcher) {
    && done <= args.Keys
    && ValuesPass(table, args, done, re)
    && seen' == seen + NamesIn(table, args, done)
    && NamesFresh(table, args, done, seen) && NamesDistinct(table, args, done)
    && (forall k :: k in done && k != "command" ==> k in table && table[k] in argToRuleMap)
    && Matches(table, args, argToRuleMap)
  }

  /** One step of the loop of ValidateArgs over the arguments: checks argument `k` after the arguments `done`. */
  method CheckArgument(table: map<string, RuleDef>, args: map<string, string>, seen: set<string>, ghost done: set<string>,
                       seen': set<string>, argToRuleMap: map<RuleDef, string>, k: string, re: Matcher)
    returns (err: Option<ParseError>, seen'': set<string>, argToRuleMap': map<RuleDef, string>)
    requires Visited(table, args, done, seen, seen', argToRuleMap, re) && k in args && k !in done
    ensures err.None? ==> Visited(table, args, done + {k}, seen, seen'', argToRuleMap', re)
    ensures err.Some? ==>
      !(ValuesPass(table, args, args.Keys, re) && NamesFresh(table, args, args.Keys, seen) && NamesDistinct(table, args, args.Keys))
    ensures seen' <= seen'' <= seen + NamesIn(table, args, done + {k})
    ensures Matches(table, args, argToRuleMap')
  {
    seen'' := seen';
    argToRuleMap' := argToRuleMap;
    NamesInMonotone(table, args, done, done + {k});
    if k == "command" {
      ValueAccepted(table, args, done, k, re);
      VisitUnscoped(table, args, done, seen, k);
      return None, seen'', argToRuleMap';
    }
    if k !in table {
      ValueRefused(table, args, k, re);
      return Some(UnsupportedArgument(k)), seen'', argToRuleMap';
    }
    var rd := table[k];
    var v := args[k];
    var bad := CheckValue(rd, k, v, re);
    if bad.Some? {
      ValueRefused(table, args, k, re);
      return bad, seen'', argToRuleMap';
    }
    ValueAccepted(table, args, done, k, re);
    if rd.uniqueWithin != "" {
      var name := rd.uniqueWithin + "/" + v;
      assert name == ScopedName(table, args, k);
      if name in seen'' {
        NameTaken(table, args, seen, done, k);
        return Some(NotUnique(v, rd.uniqueWithin)), seen'', argToRuleMap';
      }
      VisitScoped(table, args, done, seen, k);
      seen'' := seen'' + {name};
    } else {
      VisitUnscoped(table, args, done, seen, k);
    }
    argToRuleMap' := argToRuleMap'[rd := k];
    return None, seen'', argToRuleMap';
  }

  /** The loop of ValidateArgs over the definitions: every required definition must have matched an argument. */
  method CheckRequired(table: map<string, RuleDef>, args: map<string, string>, argToRuleMap: map<RuleDef, string>)
    returns (err: Option<ParseError>)
    requires forall k :: k in table ==> table[k].key == k
    requires forall k :: k in args && k != "command" ==> k in table && table[k] in argToRuleMap
    requires Matches(table, args, argToRuleMap)
    ensures err.None? <==> RequiredPresent(table, args)
  {
    var unchecked := table.Keys;
    while unchecked != {}
      invariant unchecked <= table.Keys
      invariant forall k :: k in table && k !in unchecked && table[k].isRequired ==> k in args && k != "command"
      decreases unchecked
    {
      var k :| k in unchecked;
      unchecked := unchecked - {k};
      var v := table[k];
      if v.isRequired {
        if v !in argToRuleMap {
          return Some(MissingArgument(k));
        }
        assert table[argToRuleMap[v]] == v;
      }
    }
    return None;
  }

  // ---------------------------------------------------------------------
  // Directives against rules (validateDWDirective, Validate)
  // ---------------------------------------------------------------------

  /** Whether scoped names were claimed or not decides only the freshness part of ArgsAccepted. */
  lemma ArgsAcceptedSplit(rule: RuleSpec, args: map<string, string>, seen: set<string>, re: Matcher)
    ensures ArgsAccepted(rule, args, seen, re) <==>
      ArgsAccepted(rule, args, {}, re) && UniqueNames(rule, args) !! seen
  {
    var table := RuleTable(rule.ruleDefs);
    if NamesFresh(table, args, args.Keys, seen) {
      forall x | x in UniqueNames(rule, args) ensures x !in seen {
        var k :| k in args.Keys && Scoped(table, args, k) && ScopedName(table, args, k) == x;
      }
    }
    if UniqueNames(rule, args) !! seen {
      forall k | k in args.Keys && Scoped(table, args, k) ensures ScopedName(table, args, k) !in seen {
        assert ScopedName(table, args, k) in UniqueNames(rule, args);
      }
    }
  }

  /** `rule` applies to `dwd`: the directive parses, names the rule's command and its arguments pass the rule. */
  ghost predicate Applies(rule: RuleSpec, dwd: string, re: Matcher) {
    && !Bare(dwd)
    && ParseDirective(dwd).Success?
    && ArgsAccepted(rule, ParseDirective(dwd).value, {}, re)
  }

  /**
   * What one rule makes of one directive, apart from the names claimed
   * before it: the directive fails, is for another command, or is
   * accepted provided the names it claims are still free.
   */
  datatype Judgement = Fails | NotMine | Claims(names: set<string>)

  ghost function Judge(rule: RuleSpec, dwd: string, re: Matcher): (j: Judgement)
    requires !Bare(dwd)
    ensures j.Claims? <==> Applies(rule, dwd, re)
    ensures j.Claims? ==> j.names == UniqueNames(rule, ParseDirective(dwd).value)
  {
    var parsed := ParseDirective(dwd);
    if parsed.Failure? then Fails
    else if Lookup(parsed.value, "command") != rule.command then NotMine
    else if ArgsAccepted(rule, parsed.value, {}, re) then Claims(UniqueNames(rule, parsed.value))
    else Fails
  }

  /** The cases of Judge, one by one. */
  lemma JudgeCases(rule: RuleSpec, dwd: string, re: Matcher)
    requires !Bare(dwd)
    ensures ParseDirective(dwd).Failure? ==> Judge(rule, dwd, re) == Fails
    ensures ParseDirective(dwd).Success? && Lookup(ParseDirective(dwd).value, "command") != rule.command ==>
      Judge(rule, dwd, re) == NotMine
    ensures ParseDirective(dwd).Success? && Lookup(ParseDirective(dwd).value, "command") == rule.command ==>
      Judge(rule, dwd, re) ==
        if ArgsAccepted(rule, ParseDirective(dwd).value, {}, re) then Claims(UniqueNames(rule, ParseDirective(dwd).value)) else Fails
  {
  }

  /** For a directive of the rule's command, the verdict is ValidateArgs' answer. */
  lemma DecideArgs(rule: RuleSpec, dwd: string, seen: set<string>, re: Matcher)
    requires !Bare(dwd) && ParseDirective(dwd).Success?
    requires Lookup(ParseDirective(dwd).value, "command") == rule.command
    ensures var args := ParseDirective(dwd).value;
      Decide(Judge(rule, dwd, re), seen) ==
        if ArgsAccepted(rule, args, seen, re) then Accepted(seen + UniqueNames(rule, args)) else Rejected
  {
    JudgeCases(rule, dwd, re);
    ArgsAcceptedSplit(rule, ParseDirective(dwd).value, seen, re);
  }

  /** What one rule makes of one directive: it matches (with the names claimed after it), does not apply, or refuses it. */
  datatype Verdict = Accepted(seen: set<string>) | Skipped | Rejected

  function Decide(j: Judgement, seen: set<string>): Verdict {
    match j
    case Fails => Rejected
    case NotMine => Skipped
    case Claims(names) => if names !! seen then Accepted(seen + names) else Rejected
  }

  method ValidateDirective(rule: RuleSpec, dwd: string, seen: set<string>, re: Matcher)
    returns (valid: bool, err: Option<ParseError>, seen': set<string>)
    requires !Bare(dwd)
    ensures var v := Decide(Judge(rule, dwd, re), seen);
      && (valid <==> v.Accepted?)
      && (err.Some? <==> v.Rejected?)
      && (valid ==> seen' == v.seen)
      && (v.Skipped? ==> seen' == seen)
  {
    seen' := seen;
    JudgeCases(rule, dwd, re);
    var argsMap := BuildArgsMap(dwd);
    if argsMap.Failure? {
      return false, Some(argsMap.error), seen';
    }
    if Lookup(argsMap.value, "command") != rule.command {
      return false, None, seen';
    }
    DecideArgs(rule, dwd, seen, re);
    err, seen' := ValidateArgs(rule, argsMap.value, seen, re);
    if err.Some? {
      return false, err, seen';
    }
    return true, None, seen';
  }

  /** One call of the callback: the directive at `index` matched `rule`. */
  datatype Call = Call(index: nat, rule: RuleSpec)

  /** The state of Validate while one directive is checked against the rules. */
  datatype Pass = Pass(aborted: bool, matched: bool, seen: set<string>, calls: seq<Call>)

  /** What each rule makes of directive `dwd`. */
  ghost function Judges(rules: seq<RuleSpec>, dwd: string, re: Matcher): (js: seq<Judgement>)
    requires rules != [] ==> !Bare(dwd)
    ensures |js| == |rules|
    ensures forall j :: 0 <= j < |rules| ==> js[j] == Judge(rules[j], dwd, re)
  {
    if rules == [] then [] else [Judge(rules[0], dwd, re)] + Judges(rules[1..], dwd, re)
  }

  /** Validate parses no directive when there are no rules; otherwise none may be a bare `#DW`. */
  predicate Parsable(rules: seq<RuleSpec>, directives: seq<string>) {
    rules == [] || forall i :: 0 <= i < |directives| ==> !Bare(directives[i])
  }

  /** What each rule makes of each directive. */
  ghost function AllJudges(rules: seq<RuleSpec>, directives: seq<string>, re: Matcher): (jss: seq<seq<Judgement>>)
    requires Parsable(rules, directives)
    ensures |jss| == |directives|
    ensures forall i :: 0 <= i < |directives| ==> jss[i] == Judges(rules, directives[i], re)
  {
    if directives == [] then [] else [Judges(rules, directives[0], re)] + AllJudges(rules, directives[1..], re)
  }

  /** Checks directive `index` against rules[j..], whose judgements are js[j..], continuing pass `p`. */
  ghost function RulesFrom(rules: seq<RuleSpec>, js: seq<Judgement>, j: nat, index: nat, p: Pass): Pass
    requires |js| == |rules| && j <= |rules|
    decreases |rules| - j
  {
    if j == |rules| then p
    else
      match Decide(js[j], p.seen)
      case Rejected => p.(aborted := true)
      case Skipped => RulesFrom(rules, js, j + 1, index, p)
      case Accepted(s) => RulesFrom(rules, js, j + 1, index, Pass(false, true, s, p.calls + [Call(index, rules[j])]))
  }

  /** How Validate ends: every directive matched, a rule refused one, or one matched no rule. */
  datatype Outcome =
    | Passed(calls: seq<Call>)
    | Refused(calls: seq<Call>)
    | Unmatched(directive: string, calls: seq<Call>)

  /** The pass of Validate over directive i, from the names claimed and calls made so far. */
  ghost function DirectivePass(rules: seq<RuleSpec>, jss: seq<seq<Judgement>>, i: nat, seen: set<string>, calls: seq<Call>): Pass
    requires i < |jss| && |jss[i]| == |rules|
  {
    RulesFrom(rules, jss[i], 0, i, Pass(false, false, seen, calls))
  }

  /** Checks directives[i..], whose judgements are jss[i..], given the names claimed and the calls made so far. */
  ghost function ValidateFrom(rules: seq<RuleSpec>, directives: seq<string>, jss: seq<seq<Judgement>>, i: nat, seen: set<string>, calls: seq<Call>): Outcome
    requires |jss| == |directives| && Shaped(jss, rules) && i <= |directives|
    decreases |directives| - i
  {
    if i == |directives| then Passed(calls)
    else
      var p := DirectivePass(rules, jss, i, seen, calls);
      if p.aborted then Refused(p.calls)
      else if !p.matched then Unmatched(directives[i], p.calls)
      else ValidateFrom(rules, directives, jss, i + 1, p.seen, p.calls)
  }

  ghost function ValidateSpec(rules: seq<RuleSpec>, directives: seq<string>, re: Matcher): Outcome
    requires Parsable(rules, directives)
  {
    ValidateFrom(rules, directives, AllJudges(rules, directives, re), 0, {}, [])
  }

  /**
   * Validates every directive against every rule. Returns the error, if
   * any, and the calls of the callback in the order they were made.
   */
  method Validate(rules: seq<RuleSpec>, directives: seq<string>, re: Matcher)
    returns (err: Option<ParseError>, calls: seq<Call>)
    requires Parsable(rules, directives)
    ensures var o := ValidateSpec(rules, directives, re);
      && (err.None? <==> o.Passed?)
      && calls == o.calls
      && (o.Unmatched? ==> err == Some(InvalidDirective(o.directive)))
  {
    ghost var jss := AllJudges(rules, directives, re);
    var uniqueMap: set<string> := {};
    calls := [];
    for index := 0 to |directives|
      invariant ValidateFrom(rules, directives, jss, index, uniqueMap, calls) == ValidateSpec(rules, directives, re)
    {
      var directive := directives[index];
      var validDirective := false;
      ghost var start := Pass(false, false, uniqueMap, calls);
      for j := 0 to |rules|
        invariant RulesFrom(rules, jss[index], j, index, Pass(false, validDirective, uniqueMap, calls))
               == RulesFrom(rules, jss[index], 0, index, start)
      {
        var valid, e;
        valid, e, uniqueMap := ValidateDirective(rules[j], directive, uniqueMap, re);
        if e.Some? {
          return e, calls;
        }
        if valid {
          validDirective := true;
          calls := calls + [Call(index, rules[j])];
        }
      }
      if !validDirective {
        return Some(InvalidDirective(directive)), calls;
      }
    }
    return None, calls;
  }

  /** The callback sees the directives in order. */
  predicate InOrder(calls: seq<Call>) {
    forall a, b :: 0 <= a < b < |calls| ==> calls[a].index <= calls[b].index
  }

  /** Directive `i` has had a call. */
  predicate Called(calls: seq<Call>, i: nat) {
    exists k :: 0 <= k < |calls| && calls[k].index == i
  }

  /**
   * Checking one directive against the rules only adds names and calls,
   * and it matched exactly when it added a call.
   */
  lemma {:induction false} RulesFromGrows(rules: seq<RuleSpec>, js: seq<Judgement>, j: nat, index: nat, p: Pass)
    requires |js| == |rules| && j <= |rules|
    ensures var r := RulesFrom(rules, js, j, index, p);
      && p.seen <= r.seen
      && |p.calls| <= |r.calls| && r.calls[..|p.calls|] == p.calls
      && (r.matched <==> p.matched || |r.calls| > |p.calls|)
    decreases |rules| - j
  {
    if j < |rules| {
      var v := Decide(js[j], p.seen);
      if v.Skipped? {
        RulesFromGrows(rules, js, j + 1, index, p);
      } else if v.Accepted? {
        var q := Pass(false, true, v.seen, p.calls + [Call(index, rules[j])]);
        RulesFromGrows(rules, js, j + 1, index, q);
        var r := RulesFrom(rules, js, j + 1, index, q);
        assert r.calls[..|p.calls|] == q.calls[..|q.calls|][..|p.calls|];
      }
    }
  }

  /** Call `c` is for directive `index` and a rule from rules[j..] whose judgement claims names. */
  ghost predicate CallFrom(c: Call, rules: seq<RuleSpec>, js: seq<Judgement>, j: nat, index: nat)
    requires |js| == |rules|
  {
    && c.index == index
    && exists jj :: j <= jj < |rules| && rules[jj] == c.rule && js[jj].Claims?
  }

  /** The calls of `r` past those of `p` satisfy CallFrom. */
  ghost predicate NewCallsFrom(r: Pass, p: Pass, rules: seq<RuleSpec>, js: seq<Judgement>, j: nat, index: nat)
    requires |js| == |rules|
  {
    forall k :: |p.calls| <= k < |r.calls| ==> CallFrom(r.calls[k], rules, js, j, index)
  }

  /** Each call that checking one directive adds is for this directive and a rule from rules[j..] whose judgement claims names. */
  lemma {:induction false} RulesFromCalls(rules: seq<RuleSpec>, js: seq<Judgement>, j: nat, index: nat, p: Pass)
    requires |js| == |rules| && j <= |rules|
    ensures NewCallsFrom(RulesFrom(rules, js, j, index, p), p, rules, js, j, index)
    decreases |rules| - j
  {
    if j < |rules| {
      var v := Decide(js[j], p.seen);
      if v.Skipped? {
        RulesFromCalls(rules, js, j + 1, index, p);
        var r := RulesFrom(rules, js, j + 1, index, p);
        forall k | |p.calls| <= k < |r.calls| ensures CallFrom(r.calls[k], rules, js, j, index) {
          assert CallFrom(r.calls[k], rules, js, j + 1, index);
        }
      } else if v.Accepted? {
        var q := Pass(false, true, v.seen, p.calls + [Call(index, rules[j])]);
        RulesFromCalls(rules, js, j + 1, index, q);
        RulesFromGrows(rules, js, j + 1, index, q);
        var r := RulesFrom(rules, js, j + 1, index, q);
        assert r.calls[|p.calls|] == q.calls[|p.calls|];
        forall k | |q.calls| <= k < |r.calls| ensures CallFrom(r.calls[k], rules, js, j, index) {
          assert CallFrom(r.calls[k], rules, js, j + 1, index);
        }
      }
    }
  }

  /**
   * A pass that is not aborted has met no failing judgement in rules[j..]
   * and has claimed every name those rules claim.
   */
  lemma {:induction false} RulesFromClaimsAll(rules: seq<RuleSpec>, js: seq<Judgement>, j: nat, index: nat, p: Pass)
    requires |js| == |rules| && j <= |rules|
    ensures !RulesFrom(rules, js, j, index, p).aborted ==>
      forall jj :: j <= jj < |rules| ==>
        !js[jj].Fails? && (js[jj].Claims? ==> js[jj].names <= RulesFrom(rules, js, j, index, p).seen)
    decreases |rules| - j
  {
    if j < |rules| {
      var v := Decide(js[j], p.seen);
      if v.Skipped? {
        RulesFromClaimsAll(rules, js, j + 1, index, p);
      } else if v.Accepted? {
        var q := Pass(false, true, v.seen, p.calls + [Call(index, rules[j])]);
        RulesFromClaimsAll(rules, js, j + 1, index, q);
        RulesFromGrows(rules, js, j + 1, index, q);
      }
    }
  }

  /** A pass reaching a rule that claims a name already claimed is aborted. */
  lemma {:induction false} RulesFromRefusesClaimed(rules: seq<RuleSpec>, js: seq<Judgement>, j: nat, index: nat, p: Pass, jj: nat)
    requires |js| == |rules| && j <= jj < |rules|
    requires js[jj].Claims? && !(js[jj].names !! p.seen)
    ensures RulesFrom(rules, js, j, index, p).aborted
    decreases |rules| - j
  {
    var v := Decide(js[j], p.seen);
    if v.Skipped? {
      RulesFromRefusesClaimed(rules, js, j + 1, index, p, jj);
    } else if v.Accepted? {
      assert jj != j;
      var q := Pass(false, true, v.seen, p.calls + [Call(index, rules[j])]);
      RulesFromRefusesClaimed(rules, js, j + 1, index, q, jj);
    }
  }

  /** A pass that meets two rules claiming a common name, one after the other, is aborted. */
  lemma {:induction false} RulesFromSharedAborts(rules: seq<RuleSpec>, js: seq<Judgement>, j: nat, index: nat, p: Pass, ja: nat, jb: nat)
    requires |js| == |rules| && j <= ja < jb < |rules|
    requires js[ja].Claims? && js[jb].Claims? && !(js[ja].names !! js[jb].names)
    ensures RulesFrom(rules, js, j, index, p).aborted
    decreases |rules| - j
  {
    var v := Decide(js[j], p.seen);
    if v.Accepted? {
      var q := Pass(false, true, v.seen, p.calls + [Call(index, rules[j])]);
      if j < ja {
        RulesFromSharedAborts(rules, js, j + 1, index, q, ja, jb);
      } else {
        RulesFromRefusesClaimed(rules, js, j + 1, index, q, jb);
      }
    } else if v.Skipped? {
      RulesFromSharedAborts(rules, js, j + 1, index, p, ja, jb);
    }
  }

  /** A pass that meets a rule claiming names either is aborted or matches. */
  lemma {:induction false} RulesFromMatchesClaim(rules: seq<RuleSpec>, js: seq<Judgement>, j: nat, index: nat, p: Pass, jj: nat)
    requires |js| == |rules| && j <= jj < |rules| && js[jj].Claims?
    ensures var r := RulesFrom(rules, js, j, index, p); r.aborted || r.matched
    decreases |rules| - j
  {
    var v := Decide(js[j], p.seen);
    if v.Skipped? {
      RulesFromMatchesClaim(rules, js, j + 1, index, p, jj);
    } else if v.Accepted? {
      var q := Pass(false, true, v.seen, p.calls + [Call(index, rules[j])]);
      RulesFromGrows(rules, js, j + 1, index, q);
    }
  }

  /** Call `c` is for a directive of which the rule it names claims names. */
  ghost predicate ClaimedCall(c: Call, rules: seq<RuleSpec>, jss: seq<seq<Judgement>>) {
    && c.index < |jss|
    && exists jj :: 0 <= jj < |rules| && jj < |jss[c.index]| && rules[jj] == c.rule && jss[c.index][jj].Claims?
  }

  /** `r` extends `calls` by calls for directives from `lo` on, each a ClaimedCall. */
  ghost predicate Extends(r: seq<Call>, calls: seq<Call>, lo: nat, rules: seq<RuleSpec>, jss: seq<seq<Judgement>>) {
    && |calls| <= |r| && r[..|calls|] == calls
    && forall k :: |calls| <= k < |r| ==> lo <= r[k].index && ClaimedCall(r[k], rules, jss)
  }

  /** Every call in `calls` is for a directive before `i`. */
  predicate Before(calls: seq<Call>, i: nat) {
    forall k :: 0 <= k < |calls| ==> calls[k].index < i
  }

  /** The judgement of rule j on directive i, as AllJudges holds it. */
  lemma AllJudgesAt(rules: seq<RuleSpec>, directives: seq<string>, re: Matcher, i: nat, j: nat)
    returns (jss: seq<seq<Judgement>>)
    requires Parsable(rules, directives) && i < |directives| && j < |rules|
    ensures jss == AllJudges(rules, directives, re)
    ensures Shaped(jss, rules) && jss[i][j] == Judge(rules[j], directives[i], re)
  {
    jss := AllJudges(rules, directives, re);
  }

  /** Judgements for each directive, one per rule. */
  predicate Shaped(jss: seq<seq<Judgement>>, rules: seq<RuleSpec>) {
    forall i :: 0 <= i < |jss| ==> |jss[i]| == |rules|
  }

  /** The pass over directive i only appends calls for directive i with a rule that claims it. */
  lemma DirectivePassCalls(rules: seq<RuleSpec>, jss: seq<seq<Judgement>>, i: nat, seen: set<string>, calls: seq<Call>)
    requires i < |jss| && |jss[i]| == |rules|
    ensures var p := DirectivePass(rules, jss, i, seen, calls);
      && Extends(p.calls, calls, i, rules, jss)
      && Before(p.calls[|calls|..], i + 1)
      && (p.matched <==> |p.calls| > |calls|)
  {
    var start := Pass(false, false, seen, calls);
    RulesFromGrows(rules, jss[i], 0, i, start);
    RulesFromCalls(rules, jss[i], 0, i, start);
    var p := DirectivePass(rules, jss, i, seen, calls);
    forall k | |calls| <= k < |p.calls| ensures p.calls[k].index == i && ClaimedCall(p.calls[k], rules, jss) {
      assert CallFrom(p.calls[k], rules, jss[i], 0, i);
    }
  }

  /** Calls for directives before `i`, in order, stay in order when directives[i..] are checked. */
  lemma {:induction false} ValidateFromCalls(rules: seq<RuleSpec>, directives: seq<string>, jss: seq<seq<Judgement>>, i: nat, seen: set<string>, calls: seq<Call>)
    requires |jss| == |directives| && Shaped(jss, rules) && i <= |directives|
    requires InOrder(calls) && Before(calls, i)
    ensures Extends(ValidateFrom(rules, directives, jss, i, seen, calls).calls, calls, i, rules, jss)
    ensures InOrder(ValidateFrom(rules, directives, jss, i, seen, calls).calls)
    decreases |directives| - i
  {
    if i < |directives| {
      DirectivePassCalls(rules, jss, i, seen, calls);
      var p := DirectivePass(rules, jss, i, seen, calls);
      InOrderAppend(calls, p.calls, i);
      if !p.aborted && p.matched {
        ValidateFromCalls(rules, directives, jss, i + 1, p.seen, p.calls);
        var o := ValidateFrom(rules, directives, jss, i + 1, p.seen, p.calls).calls;
        assert o[..|calls|] == o[..|p.calls|][..|calls|];
      }
    }
  }

  /** Appending calls for directive `i` to calls for directives before it keeps them in order. */
  lemma InOrderAppend(calls: seq<Call>, r: seq<Call>, i: nat)
    requires InOrder(calls) && Before(calls, i)
    requires |calls| <= |r| && r[..|calls|] == calls
    requires forall k :: |calls| <= k < |r| ==> r[k].index == i
    ensures InOrder(r) && Before(r, i + 1)
  {
    forall a, b | 0 <= a < b < |r| ensures r[a].index <= r[b].index {
      if b < |calls| {
        assert r[a] == calls[a] && r[b] == calls[b];
      } else if a < |calls| {
        assert r[a] == calls[a];
      }
    }
    forall k | 0 <= k < |r| ensures r[k].index < i + 1 {
      if k < |calls| {
        assert r[k] == calls[k];
      }
    }
  }

  /** No judgement of directive `i` fails. */
  predicate NoneFails(jss: seq<seq<Judgement>>, i: nat)
    requires i < |jss|
  {
    forall jj :: 0 <= jj < |jss[i]| ==> !jss[i][jj].Fails?
  }

  /** If directives[i..] pass, each has had a call and no rule failed any of them. */
  ghost predicate PassedFrom(o: Outcome, i: nat, jss: seq<seq<Judgement>>) {
    o.Passed? ==> forall i' :: i <= i' < |jss| ==> Called(o.calls, i') && NoneFails(jss, i')
  }

  lemma {:induction false} ValidateFromPassed(rules: seq<RuleSpec>, directives: seq<string>, jss: seq<seq<Judgement>>, i: nat, seen: set<string>, calls: seq<Call>)
    requires |jss| == |directives| && Shaped(jss, rules) && i <= |directives|
    ensures PassedFrom(ValidateFrom(rules, directives, jss, i, seen, calls), i, jss)
    decreases |directives| - i
  {
    if i < |directives| {
      var p := DirectivePass(rules, jss, i, seen, calls);
      if !p.aborted && p.matched {
        DirectivePassCalls(rules, jss, i, seen, calls);
        RulesFromGrows(rules, jss[i], 0, i, Pass(false, false, seen, calls));
        RulesFromClaimsAll(rules, jss[i], 0, i, Pass(false, false, seen, calls));
        ValidateFromPassed(rules, directives, jss, i + 1, p.seen, p.calls);
        ValidateFromKeepsCalls(rules, directives, jss, i + 1, p.seen, p.calls);
        var o := ValidateFrom(rules, directives, jss, i + 1, p.seen, p.calls);
        var k := |calls|;
        assert o.calls[k] == p.calls[k] by {
          assert o.calls[..|p.calls|] == p.calls;
        }
        assert Called(o.calls, i);
      }
    }
  }

  /** Checking directives[i..] keeps the calls made before it as a prefix. */
  lemma {:induction false} ValidateFromKeepsCalls(rules: seq<RuleSpec>, directives: seq<string>, jss: seq<seq<Judgement>>, i: nat, seen: set<string>, calls: seq<Call>)
    requires |jss| == |directives| && Shaped(jss, rules) && i <= |directives|
    ensures var o := ValidateFrom(rules, directives, jss, i, seen, calls).calls; |calls| <= |o| && o[..|calls|] == calls
    decreases |directives| - i
  {
    if i < |directives| {
      var p := DirectivePass(rules, jss, i, seen, calls);
      RulesFromGrows(rules, jss[i], 0, i, Pass(false, false, seen, calls));
      if !p.aborted && p.matched {
        ValidateFromKeepsCalls(rules, directives, jss, i + 1, p.seen, p.calls);
        var o := ValidateFrom(rules, directives, jss, i + 1, p.seen, p.calls).calls;
        assert o[..|calls|] == o[..|p.calls|][..|calls|];
      }
    }
  }

  /** Rule `rule` neither fails directive `dwd` nor applies to it: `dwd` is for another command. */
  ghost predicate Foreign(rule: RuleSpec, dwd: string)
    requires !Bare(dwd)
  {
    ParseDirective(dwd).Success? && Lookup(ParseDirective(dwd).value, "command") != rule.command
  }

  /** Validate calls back in directive order, and only for a directive and a rule that applies to it. */
  lemma ValidateCalls(rules: seq<RuleSpec>, directives: seq<string>, re: Matcher)
    requires Parsable(rules, directives)
    ensures InOrder(ValidateSpec(rules, directives, re).calls)
    ensures forall c :: c in ValidateSpec(rules, directives, re).calls ==>
      c.index < |directives| && c.rule in rules && Applies(c.rule, directives[c.index], re)
  {
    var jss := AllJudges(rules, directives, re);
    ValidateFromCalls(rules, directives, jss, 0, {}, []);
    var o := ValidateSpec(rules, directives, re);
    forall k | 0 <= k < |o.calls|
      ensures o.calls[k].index < |directives| && o.calls[k].rule in rules && Applies(o.calls[k].rule, directives[o.calls[k].index], re)
    {
      assert ClaimedCall(o.calls[k], rules, jss);
      ClaimedApplies(rules, directives, re, o.calls[k]);
    }
  }

  /** A claimed call is for a rule that applies to its directive. */
  lemma ClaimedApplies(rules: seq<RuleSpec>, directives: seq<string>, re: Matcher, c: Call)
    requires Parsable(rules, directives)
    requires ClaimedCall(c, rules, AllJudges(rules, directives, re))
    ensures c.index < |directives| && c.rule in rules && Applies(c.rule, directives[c.index], re)
  {
    var jss: seq<seq<Judgement>> := AllJudges(rules, directives, re);
    var jj: int :| 0 <= jj < |rules| && jj < |jss[c.index]| && rules[jj] == c.rule && jss[c.index][jj].Claims?;
    assert jss[c.index][jj] == Judge(rules[jj], directives[c.index], re);
  }

  /**
   * When Validate succeeds, every directive had a call, and each rule
   * either applies to each directive or is for another command.
   */
  lemma ValidatePassed(rules: seq<RuleSpec>, directives: seq<string>, re: Matcher)
    requires Parsable(rules, directives)
    requires ValidateSpec(rules, directives, re).Passed?
    ensures forall i :: 0 <= i < |directives| ==> Called(ValidateSpec(rules, directives, re).calls, i)
    ensures forall i, j :: 0 <= i < |directives| && 0 <= j < |rules| ==>
      Applies(rules[j], directives[i], re) || Foreign(rules[j], directives[i])
  {
    var jss := AllJudges(rules, directives, re);
    ValidateFromPassed(rules, directives, jss, 0, {}, []);
    forall i, j | 0 <= i < |directives| && 0 <= j < |rules|
      ensures Applies(rules[j], directives[i], re) || Foreign(rules[j], directives[i])
    {
      assert NoneFails(jss, i);
      assert jss[i][j] == Judge(rules[j], directives[i], re);
      JudgeNotFails(rules[j], directives[i], re);
    }
  }

  /** A judgement that is not Fails means the rule applies or is for another command. */
  lemma JudgeNotFails(rule: RuleSpec, dwd: string, re: Matcher)
    requires !Bare(dwd)
    ensures !Judge(rule, dwd, re).Fails? ==> Applies(rule, dwd, re) || Foreign(rule, dwd)
  {
  }

  /** With no directives Validate succeeds; with directives but no rules it reports the first. */
  lemma ValidateNoRules(rules: seq<RuleSpec>, directives: seq<string>, re: Matcher)
    requires Parsable(rules, directives)
    ensures directives == [] ==> ValidateSpec(rules, directives, re) == Passed([])
    ensures rules == [] && directives != [] ==> ValidateSpec(rules, directives, re) == Unmatched(directives[0], [])
  {
  }

  /**
   * No name may be claimed twice: when two rules apply, to two directives
   * or one after the other to the same directive, and the unique names
   * they claim overlap, Validate does not succeed.
   */
  lemma SharedNameRefused(rules: seq<RuleSpec>, directives: seq<string>, re: Matcher, a: nat, b: nat, ja: nat, jb: nat)
    requires Parsable(rules, directives)
    requires a <= b < |directives| && ja < |rules| && jb < |rules| && (a < b || ja < jb)
    requires Applies(rules[ja], directives[a], re) && Applies(rules[jb], directives[b], re)
    requires !(UniqueNames(rules[ja], ParseDirective(directives[a]).value) !! UniqueNames(rules[jb], ParseDirective(directives[b]).value))
    ensures !ValidateSpec(rules, directives, re).Passed?
  {
    var jss := AllJudgesAt(rules, directives, re, a, ja);
    var jss' := AllJudgesAt(rules, directives, re, b, jb);
    SharedFrom(rules, directives, jss, 0, {}, [], a, b, ja, jb);
  }

  /**
   * A directive that claims a unique name cannot be given twice: Validate
   * never succeeds on a list that repeats it.
   */
  lemma RepeatedDirectiveRefused(rules: seq<RuleSpec>, directives: seq<string>, re: Matcher, a: nat, b: nat, j: nat)
    requires Parsable(rules, directives)
    requires a < b < |directives| && directives[a] == directives[b]
    requires j < |rules| && ParseDirective(directives[a]).Success?
    requires Applies(rules[j], directives[a], re)
    requires UniqueNames(rules[j], ParseDirective(directives[a]).value) != {}
    ensures !ValidateSpec(rules, directives, re).Passed?
  {
    SharedNameRefused(rules, directives, re, a, b, j, j);
  }

  /** SharedNameRefused over judgements, checking from directive i <= a on. */
  lemma {:induction false} SharedFrom(rules: seq<RuleSpec>, directives: seq<string>, jss: seq<seq<Judgement>>,
                                      i: nat, seen: set<string>, calls: seq<Call>, a: nat, b: nat, ja: nat, jb: nat)
    requires |jss| == |directives| && Shaped(jss, rules)
    requires i <= a <= b < |directives| && ja < |rules| && jb < |rules| && (a < b || ja < jb)
    requires jss[a][ja].Claims? && jss[b][jb].Claims? && !(jss[a][ja].names !! jss[b][jb].names)
    ensures !ValidateFrom(rules, directives, jss, i, seen, calls).Passed?
    decreases a - i
  {
    var start := Pass(false, false, seen, calls);
    var p := DirectivePass(rules, jss, i, seen, calls);
    if i < a {
      if !p.aborted && p.matched {
        SharedFrom(rules, directives, jss, i + 1, p.seen, p.calls, a, b, ja, jb);
      }
    } else if a < b {
      if !p.aborted && p.matched {
        RulesFromClaimsAll(rules, jss[a], 0, a, start);
        TakenFrom(rules, directives, jss, a + 1, p.seen, p.calls, b, jb);
      }
    } else {
      RulesFromSharedAborts(rules, jss[a], 0, a, start, ja, jb);
    }
  }

  /** Checking from directive i <= b on fails when judgement jss[b][j] claims a name already taken. */
  lemma {:induction false} TakenFrom(rules: seq<RuleSpec>, directives: seq<string>, jss: seq<seq<Judgement>>,
                                     i: nat, seen: set<string>, calls: seq<Call>, b: nat, j: nat)
    requires |jss| == |directives| && Shaped(jss, rules)
    requires i <= b < |directives| && j < |rules|
    requires jss[b][j].Claims? && !(jss[b][j].names !! seen)
    ensures !ValidateFrom(rules, directives, jss, i, seen, calls).Passed?
    decreases b - i
  {
    var start := Pass(false, false, seen, calls);
    var p := DirectivePass(rules, jss, i, seen, calls);
    RulesFromGrows(rules, jss[i], 0, i, start);
    if i == b {
      RulesFromRefusesClaimed(rules, jss[b], 0, b, start, j);
    } else if !p.aborted && p.matched {
      TakenFrom(rules, directives, jss, i + 1, p.seen, p.calls, b, j);
    }
  }

  /** A pass that is not aborted has called back every rule from rules[j..] that claims the directive. */
  lemma {:induction false} RulesFromCallsAll(rules: seq<RuleSpec>, js: seq<Judgement>, j: nat, index: nat, p: Pass)
    requires |js| == |rules| && j <= |rules|
    ensures var r := RulesFrom(rules, js, j, index, p);
      !r.aborted ==> forall jj :: j <= jj < |rules| && js[jj].Claims? ==> Call(index, rules[jj]) in r.calls
    decreases |rules| - j
  {
    if j < |rules| {
      var v := Decide(js[j], p.seen);
      if v.Skipped? {
        RulesFromCallsAll(rules, js, j + 1, index, p);
      } else if v.Accepted? {
        var q := Pass(false, true, v.seen, p.calls + [Call(index, rules[j])]);
        RulesFromCallsAll(rules, js, j + 1, index, q);
        RulesFromGrows(rules, js, j + 1, index, q);
        var r := RulesFrom(rules, js, j + 1, index, q);
        assert r.calls[|p.calls|] == q.calls[|p.calls|];
      }
    }
  }

  /** If directives[i..] pass, every rule that claims one of them has been called back for it. */
  ghost predicate CalledAllFrom(o: Outcome, i: nat, rules: seq<RuleSpec>, jss: seq<seq<Judgement>>)
    requires Shaped(jss, rules)
  {
    o.Passed? ==> forall i', jj :: i <= i' < |jss| && 0 <= jj < |rules| && jss[i'][jj].Claims? ==> Call(i', rules[jj]) in o.calls
  }

  lemma {:induction false} ValidateFromCallsAll(rules: seq<RuleSpec>, directives: seq<string>, jss: seq<seq<Judgement>>, i: nat, seen: set<string>, calls: seq<Call>)
    requires |jss| == |directives| && Shaped(jss, rules) && i <= |directives|
    ensures CalledAllFrom(ValidateFrom(rules, directives, jss, i, seen, calls), i, rules, jss)
    decreases |directives| - i
  {
    if i < |directives| {
      var p := DirectivePass(rules, jss, i, seen, calls);
      if !p.aborted && p.matched {
        RulesFromCallsAll(rules, jss[i], 0, i, Pass(false, false, seen, calls));
        ValidateFromCallsAll(rules, directives, jss, i + 1, p.seen, p.calls);
        ValidateFromKeepsCalls(rules, directives, jss, i + 1, p.seen, p.calls);
        var o := ValidateFrom(rules, directives, jss, i + 1, p.seen, p.calls);
        forall jj | 0 <= jj < |rules| && jss[i][jj].Claims? ensures Call(i, rules[jj]) in o.calls {
          var k :| 0 <= k < |p.calls| && p.calls[k] == Call(i, rules[jj]);
          assert o.calls[k] == o.calls[..|p.calls|][k];
        }
      }
    }
  }

  /**
   * When Validate succeeds, it has called back every rule that applies to
   * a directive, for that directive; with ValidateCalls, the calls are
   * exactly the directive and rule pairs that apply.
   */
  lemma ValidateCallsAll(rules: seq<RuleSpec>, directives: seq<string>, re: Matcher)
    requires Parsable(rules, directives)
    requires ValidateSpec(rules, directives, re).Passed?
    ensures forall i, j :: 0 <= i < |directives| && 0 <= j < |rules| && Applies(rules[j], directives[i], re) ==>
      Call(i, rules[j]) in ValidateSpec(rules, directives, re).calls
  {
    var jss := AllJudges(rules, directives, re);
    ValidateFromCallsAll(rules, directives, jss, 0, {}, []);
    forall i, j | 0 <= i < |directives| && 0 <= j < |rules| && Applies(rules[j], directives[i], re)
      ensures Call(i, rules[j]) in ValidateSpec(rules, directives, re).calls
    {
      assert jss[i][j] == Judge(rules[j], directives[i], re);
    }
  }

  /** Rules claim pairwise disjoint names, over directives i.. of jss. */
  ghost predicate ClaimsDisjoint(jss: seq<seq<Judgement>>, i: nat) {
    forall a, ja, b, jb ::
      (i <= a < |jss| && i <= b < |jss| && 0 <= ja < |jss[a]| && 0 <= jb < |jss[b]| &&
       (a != b || ja != jb) && jss[a][ja].Claims? && jss[b][jb].Claims?)
      ==> jss[a][ja].names !! jss[b][jb].names
  }

  /** From directive i on, each directive is claimed by some rule and failed by none. */
  ghost predicate AllClaimedFrom(jss: seq<seq<Judgement>>, i: nat) {
    forall a :: i <= a < |jss| ==> NoneFails(jss, a) && exists ja :: 0 <= ja < |jss[a]| && jss[a][ja].Claims?
  }

  /**
   * A pass over rules[j..] that meets no failing judgement and only
   * claims that are disjoint, from each other and from the names taken,
   * is not aborted, matches once a rule claims, and adds only their names.
   */
  lemma {:induction false} RulesFromSucceeds(rules: seq<RuleSpec>, js: seq<Judgement>, j: nat, index: nat, p: Pass)
    requires |js| == |rules| && j <= |rules| && !p.aborted
    requires forall jj :: j <= jj < |rules| ==> !js[jj].Fails? && (js[jj].Claims? ==> js[jj].names !! p.seen)
    requires forall ja, jb :: j <= ja < jb < |rules| && js[ja].Claims? && js[jb].Claims? ==> js[ja].names !! js[jb].names
    ensures var r := RulesFrom(rules, js, j, index, p);
      && !r.aborted
      && (r.matched <==> p.matched || exists jj :: j <= jj < |rules| && js[jj].Claims?)
      && forall x :: x in r.seen ==> x in p.seen || exists jj :: j <= jj < |rules| && js[jj].Claims? && x in js[jj].names
    decreases |rules| - j
  {
    if j < |rules| {
      var v := Decide(js[j], p.seen);
      if v.Skipped? {
        RulesFromSucceeds(rules, js, j + 1, index, p);
      } else {
        var q := Pass(false, true, v.seen, p.calls + [Call(index, rules[j])]);
        forall jj | j + 1 <= jj < |rules| && js[jj].Claims? ensures js[jj].names !! q.seen {
          assert js[j].names !! js[jj].names;
        }
        RulesFromSucceeds(rules, js, j + 1, index, q);
      }
    }
  }

  lemma {:induction false} ValidateFromSucceeds(rules: seq<RuleSpec>, directives: seq<string>, jss: seq<seq<Judgement>>, i: nat, seen: set<string>, calls: seq<Call>)
    requires |jss| == |directives| && Shaped(jss, rules) && i <= |directives|
    requires AllClaimedFrom(jss, i) && ClaimsDisjoint(jss, i)
    requires forall a, ja :: i <= a < |jss| && 0 <= ja < |rules| && jss[a][ja].Claims? ==> jss[a][ja].names !! seen
    ensures ValidateFrom(rules, directives, jss, i, seen, calls).Passed?
    decreases |directives| - i
  {
    if i < |directives| {
      var start := Pass(false, false, seen, calls);
      assert NoneFails(jss, i);
      forall ja, jb | 0 <= ja < jb < |rules| && jss[i][ja].Claims? && jss[i][jb].Claims?
        ensures jss[i][ja].names !! jss[i][jb].names
      {
      }
      RulesFromSucceeds(rules, jss[i], 0, i, start);
      var p := DirectivePass(rules, jss, i, seen, calls);
      forall a, ja | i + 1 <= a < |jss| && 0 <= ja < |rules| && jss[a][ja].Claims?
        ensures jss[a][ja].names !! p.seen
      {
        forall x | x in p.seen ensures x !in jss[a][ja].names {
          if x !in seen {
            var jj :| 0 <= jj < |rules| && jss[i][jj].Claims? && x in jss[i][jj].names;
            assert jss[i][jj].names !! jss[a][ja].names;
          }
        }
      }
      ValidateFromSucceeds(rules, directives, jss, i + 1, p.seen, p.calls);
    }
  }

  /**
   * What Validate accepts: every directive has a rule that applies to it,
   * every rule applies to each directive or is for another command, and
   * no unique name is claimed by two different directive and rule pairs.
   */
  ghost predicate Acceptable(rules: seq<RuleSpec>, directives: seq<string>, re: Matcher) {
    EachApplied(rules, directives, re) && EachKnown(rules, directives, re) && NamesDisjoint(rules, directives, re)
  }

  /** Every directive has a rule that applies to it. */
  ghost predicate EachApplied(rules: seq<RuleSpec>, directives: seq<string>, re: Matcher) {
    forall i :: 0 <= i < |directives| ==> exists j :: 0 <= j < |rules| && Applies(rules[j], directives[i], re)
  }

  /** Every rule applies to each directive or is for another command. */
  ghost predicate EachKnown(rules: seq<RuleSpec>, directives: seq<string>, re: Matcher) {
    forall i, j :: 0 <= i < |directives| && 0 <= j < |rules| && !Bare(directives[i]) ==>
      Applies(rules[j], directives[i], re) || Foreign(rules[j], directives[i])
  }

  /** No unique name is claimed by two different directive and rule pairs. */
  ghost predicate NamesDisjoint(rules: seq<RuleSpec>, directives: seq<string>, re: Matcher) {
    forall a, ja, b, jb ::
      (0 <= a < |directives| && 0 <= b < |directives| && 0 <= ja < |rules| && 0 <= jb < |rules| &&
       (a != b || ja != jb) && Applies(rules[ja], directives[a], re) && Applies(rules[jb], directives[b], re))
      ==> UniqueNames(rules[ja], ParseDirective(directives[a]).value) !! UniqueNames(rules[jb], ParseDirective(directives[b]).value)
  }

  /** Validate succeeds exactly on acceptable directives. */
  lemma ValidateSucceeds(rules: seq<RuleSpec>, directives: seq<string>, re: Matcher)
    requires Parsable(rules, directives)
    ensures ValidateSpec(rules, directives, re).Passed? <==> Acceptable(rules, directives, re)
  {
    var jss := AllJudges(rules, directives, re);
    if ValidateSpec(rules, directives, re).Passed? {
      ValidatePassed(rules, directives, re);
      ValidateCalls(rules, directives, re);
      var calls := ValidateSpec(rules, directives, re).calls;
      forall i | 0 <= i < |directives| ensures exists j :: 0 <= j < |rules| && Applies(rules[j], directives[i], re) {
        assert Called(calls, i);
        var k :| 0 <= k < |calls| && calls[k].index == i;
        assert calls[k] in calls;
        var j :| 0 <= j < |rules| && rules[j] == calls[k].rule;
      }
      forall a, ja, b, jb | 0 <= a < |directives| && 0 <= b < |directives| && 0 <= ja < |rules| && 0 <= jb < |rules| &&
          (a != b || ja != jb) && Applies(rules[ja], directives[a], re) && Applies(rules[jb], directives[b], re)
        ensures UniqueNames(rules[ja], ParseDirective(directives[a]).value) !! UniqueNames(rules[jb], ParseDirective(directives[b]).value)
      {
        if !(UniqueNames(rules[ja], ParseDirective(directives[a]).value) !! UniqueNames(rules[jb], ParseDirective(directives[b]).value)) {
          if a < b || (a == b && ja < jb) {
            SharedNameRefused(rules, directives, re, a, b, ja, jb);
          } else {
            SharedNameRefused(rules, directives, re, b, a, jb, ja);
          }
        }
      }
    } else if Acceptable(rules, directives, re) {
      AcceptableClaims(rules, directives, re);
      AcceptableClaimsDisjoint(rules, directives, re);
      ValidateFromSucceeds(rules, directives, jss, 0, {}, []);
    }
  }

  /** Over judgements, each directive of an acceptable list is claimed by some rule and failed by none. */
  lemma AcceptableClaims(rules: seq<RuleSpec>, directives: seq<string>, re: Matcher)
    requires Parsable(rules, directives) && Acceptable(rules, directives, re)
    ensures AllClaimedFrom(AllJudges(rules, directives, re), 0)
  {
    var jss := AllJudges(rules, directives, re);
    forall a | 0 <= a < |jss| ensures NoneFails(jss, a) && exists ja :: 0 <= ja < |jss[a]| && jss[a][ja].Claims? {
      AcceptableClaimed(rules, directives, re, a);
    }
  }

  /** Over judgements, the claims of an acceptable list are pairwise disjoint. */
  lemma AcceptableClaimsDisjoint(rules: seq<RuleSpec>, directives: seq<string>, re: Matcher)
    requires Parsable(rules, directives) && NamesDisjoint(rules, directives, re)
    ensures ClaimsDisjoint(AllJudges(rules, directives, re), 0)
  {
    var jss: seq<seq<Judgement>> := AllJudges(rules, directives, re);
    forall a: nat, ja: nat, b: nat, jb: nat | 0 <= a < |jss| && 0 <= b < |jss| && 0 <= ja < |jss[a]| && 0 <= jb < |jss[b]| &&
      (a != b || ja != jb) && jss[a][ja].Claims? && jss[b][jb].Claims?
      ensures jss[a][ja].names !! jss[b][jb].names
    {
      AcceptableDisjoint(rules, directives, re, a, ja, b, jb);
    }
  }

  /** Two different pairs of an acceptable list whose rules claim the directives claim disjoint names. */
  lemma AcceptableDisjoint(rules: seq<RuleSpec>, directives: seq<string>, re: Matcher, a: nat, ja: nat, b: nat, jb: nat)
    requires Parsable(rules, directives) && NamesDisjoint(rules, directives, re)
    requires a < |directives| && b < |directives| && ja < |rules| && jb < |rules| && (a != b || ja != jb)
    ensures var jss := AllJudges(rules, directives, re);
      jss[a][ja].Claims? && jss[b][jb].Claims? ==> jss[a][ja].names !! jss[b][jb].names
  {
    var jss := AllJudgesAt(rules, directives, re, a, ja);
    var jss' := AllJudgesAt(rules, directives, re, b, jb);
  }

  /** An acceptable directive is claimed by some rule and failed by none. */
  lemma AcceptableClaimed(rules: seq<RuleSpec>, directives: seq<string>, re: Matcher, a: nat)
    requires Parsable(rules, directives) && Acceptable(rules, directives, re) && a < |directives|
    ensures var jss := AllJudges(rules, directives, re);
      NoneFails(jss, a) && exists ja :: 0 <= ja < |jss[a]| && jss[a][ja].Claims?
  {
    var jss := AllJudges(rules, directives, re);
    var j :| 0 <= j < |rules| && Applies(rules[j], directives[a], re);
    assert jss[a][j] == Judge(rules[j], directives[a], re);
    forall jj | 0 <= jj < |jss[a]| ensures !jss[a][jj].Fails? {
      assert jss[a][jj] == Judge(rules[jj], directives[a], re);
      JudgeCases(rules[jj], directives[a], re);
    }
  }
}
