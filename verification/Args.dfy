/** Command-line arguments: which argument lists are accepted, and what they set. */
module Args {
  import opened Wrappers

  datatype FlagType = BoolFlag | ValueFlag | CommandFlag

  datatype Flag =
    | H | Help | FullInfo | Short | Console | NoConsole | Json | NoJson | Yaml | NoYaml | AllRecipes | Cookable
    | JsonOut | YamlOut | DbPath | ServerConfig
    | AddProducts | AddRecipes | ListProducts | ListRecipes

  function NameOf(flag: Flag): string {
    match flag
    case H => "-h"
    case Help => "--help"
    case FullInfo => "--full-info"
    case Short => "--short"
    case Console => "--console"
    case NoConsole => "--no-console"
    case Json => "--json"
    case NoJson => "--no-json"
    case Yaml => "--yaml"
    case NoYaml => "--no-yaml"
    case AllRecipes => "--all-recipes"
    case Cookable => "--cookable"
    case JsonOut => "--json-out"
    case YamlOut => "--yaml-out"
    case DbPath => "--db-path"
    case ServerConfig => "--server-config"
    case AddProducts => "--add-products"
    case AddRecipes => "--add-recipes"
    case ListProducts => "--list-products"
    case ListRecipes => "--list-recipes"
  }

  predicate TakesValue(flag: Flag) { flag.JsonOut? || flag.YamlOut? || flag.DbPath? || flag.ServerConfig? }

  predicate IsCommand(flag: Flag) { flag.AddProducts? || flag.AddRecipes? || flag.ListProducts? || flag.ListRecipes? }

  function TypeOf(flag: Flag): FlagType {
    if TakesValue(flag) then ValueFlag else if IsCommand(flag) then CommandFlag else BoolFlag
  }

  /** Length and three characters tell all names apart. */
  function Shape(name: string): (int, char, char, char) {
    if |name| < 6 then (|name|, ' ', ' ', ' ') else (|name|, name[2], name[3], name[5])
  }

  lemma ShapeOf(flag: Flag)
    ensures Shape(NameOf(flag)) ==
            match flag
            case H => (2, ' ', ' ', ' ')
            case Help => (6, 'h', 'e', 'p')
            case FullInfo => (11, 'f', 'u', 'l')
            case Short => (7, 's', 'h', 'r')
            case Console => (9, 'c', 'o', 's')
            case NoConsole => (12, 'n', 'o', 'c')
            case Json => (6, 'j', 's', 'n')
            case NoJson => (9, 'n', 'o', 'j')
            case Yaml => (6, 'y', 'a', 'l')
            case NoYaml => (9, 'n', 'o', 'y')
            case AllRecipes => (13, 'a', 'l', '-')
            case Cookable => (10, 'c', 'o', 'k')
            case JsonOut => (10, 'j', 's', 'n')
            case YamlOut => (10, 'y', 'a', 'l')
            case DbPath => (9, 'd', 'b', 'p')
            case ServerConfig => (15, 's', 'e', 'v')
            case AddProducts => (14, 'a', 'd', '-')
            case AddRecipes => (13, 'a', 'd', '-')
            case ListProducts => (15, 'l', 'i', 't')
            case ListRecipes => (14, 'l', 'i', 't')
  {
  }

  lemma NamesDistinct(f: Flag, g: Flag)
    ensures NameOf(f) == NameOf(g) <==> f == g
  {
    hide NameOf, Shape;
    ShapeOf(f);
    ShapeOf(g);
  }

  /** The flag with this name: a search of the flag table. */
  function FlagNamed(option: string): (found: Option<Flag>)
    ensures forall flag :: found == Some(flag) <==> NameOf(flag) == option
  {
    hide NameOf;
    if exists flag :: NameOf(flag) == option then
      assert forall f, g | NameOf(f) == option && NameOf(g) == option :: f == g by {
        forall f, g | NameOf(f) == option && NameOf(g) == option ensures f == g { NamesDistinct(f, g); }
      }
      var flag :| NameOf(flag) == option;
      Some(flag)
    else None
  }

  /** The text before the first `=` and the text after it; without `=` the value is empty. */
  function SplitOption(token: string): (string, string) {
    if token == "" then ("", "")
    else if token[0] == '=' then ("", token[1..])
    else
      var (option, value) := SplitOption(token[1..]);
      ([token[0]] + option, value)
  }

  function OptionOf(token: string): string { SplitOption(token).0 }

  function ValueOf(token: string): string { SplitOption(token).1 }

  /** The flag a token names, known or not. */
  function FlagOf(token: string): Option<Flag> { FlagNamed(OptionOf(token)) }

  predicate IsValidToken(token: string) {
    && token != "" && token[0] == '-'
    && FlagOf(token).Some?
    && match TypeOf(FlagOf(token).value)
       case ValueFlag => ValueOf(token) != ""
       case _ => ValueOf(token) == ""
  }

  /** Splitting is the inverse of joining an option that has no `=` with a value. */
  lemma {:induction false} SplitJoined(option: string, value: string)
    requires '=' !in option
    ensures SplitOption(option + "=" + value) == (option, value)
    ensures SplitOption(option) == (option, "")
  {
    if option == "" {
      assert ("" + "=" + value)[1..] == value;
    } else {
      SplitJoined(option[1..], value);
      assert option == [option[0]] + option[1..];
      assert (option + "=" + value)[1..] == option[1..] + "=" + value;
      assert (option + "=" + value)[0] == option[0] != '=';
    }
  }

  // ---- Paths ----

  /** A path with every run of slashes cut to one; `fs::path` compares equal exactly when these do. */
  function CollapseSlashes(path: string): string {
    if |path| >= 2 && path[0] == '/' && path[1] == '/' then CollapseSlashes(path[1..])
    else if path == "" then ""
    else [path[0]] + CollapseSlashes(path[1..])
  }

  predicate SamePath(a: string, b: string) { CollapseSlashes(a) == CollapseSlashes(b) }

  // ---- Settings ----

  datatype Settings = Settings(
    showHelp: bool, cookableOnly: bool, dbPath: string, serverConfig: string,
    fullInfo: bool, console: bool, json: bool, yaml: bool, jsonOut: string, yamlOut: string)

  function Defaults(dataDir: string, outDir: string): Settings {
    Settings(false, false, dataDir + "/table.db", "", true, true, true, true, outDir + "/info.json", outDir + "/info.yaml")
  }

  /** A switch after one flag. */
  function Switched(flag: Flag, on: Flag, off: Flag, kept: bool): bool {
    if flag == on then true else if flag == off then false else kept
  }

  /** Every setting after one flag. */
  function Updated(s: Settings, flag: Flag, value: string): Settings {
    Settings(
      s.showHelp || flag.H? || flag.Help?,
      Switched(flag, Flag.Cookable, AllRecipes, s.cookableOnly),
      if flag == DbPath then value else s.dbPath,
      if flag == ServerConfig then value else s.serverConfig,
      Switched(flag, FullInfo, Short, s.fullInfo),
      Switched(flag, Console, NoConsole, s.console),
      Switched(flag, Json, NoJson, s.json),
      Switched(flag, Yaml, NoYaml, s.yaml),
      if flag == JsonOut then value else s.jsonOut,
      if flag == YamlOut then value else s.yamlOut)
  }

  // ---- The meaning of an argument list ----

  /** A switch after some tokens: from the last token that sets it, or the default. */
  function LastSwitch(tokens: seq<string>, on: Flag, off: Flag, otherwise: bool): bool {
    if tokens == [] then otherwise
    else
      var before := LastSwitch(tokens[..|tokens| - 1], on, off, otherwise);
      match FlagOf(tokens[|tokens| - 1])
      case None => before
      case Some(flag) => Switched(flag, on, off, before)
  }

  /** Some token is a help flag; nothing takes the request back. */
  predicate AsksForHelp(tokens: seq<string>) {
    exists k: nat | k < |tokens| :: FlagOf(tokens[k]) == Some(H) || FlagOf(tokens[k]) == Some(Help)
  }

  /** A path after some tokens: the value of the last token with this name, or the default. */
  function LastPath(tokens: seq<string>, name: Flag, otherwise: string): string {
    if tokens == [] then otherwise
    else if FlagOf(tokens[|tokens| - 1]) == Some(name) then ValueOf(tokens[|tokens| - 1])
    else LastPath(tokens[..|tokens| - 1], name, otherwise)
  }

  function LastJsonOut(tokens: seq<string>, d: Settings): string { LastPath(tokens, JsonOut, d.jsonOut) }

  function LastYamlOut(tokens: seq<string>, d: Settings): string { LastPath(tokens, YamlOut, d.yamlOut) }

  function LastSettings(tokens: seq<string>, d: Settings): Settings {
    Settings(
      d.showHelp || AsksForHelp(tokens),
      LastSwitch(tokens, Flag.Cookable, AllRecipes, d.cookableOnly),
      LastPath(tokens, DbPath, d.dbPath),
      LastPath(tokens, ServerConfig, d.serverConfig),
      LastSwitch(tokens, FullInfo, Short, d.fullInfo),
      LastSwitch(tokens, Console, NoConsole, d.console),
      LastSwitch(tokens, Json, NoJson, d.json),
      LastSwitch(tokens, Yaml, NoYaml, d.yaml),
      LastJsonOut(tokens, d), LastYamlOut(tokens, d))
  }

  predicate IsValueToken(token: string) { FlagOf(token).Some? && TypeOf(FlagOf(token).value) == ValueFlag }

  /** A token stops the parse when it is invalid, or when it is a value flag that leaves the JSON
      and YAML paths equal at that point. */
  predicate FailsAt(tokens: seq<string>, d: Settings, k: nat)
    requires k < |tokens|
  {
    || !IsValidToken(tokens[k])
    || (IsValueToken(tokens[k]) && SamePath(LastJsonOut(tokens[..k + 1], d), LastYamlOut(tokens[..k + 1], d)))
  }

  lemma LastSwitchSnoc(tokens: seq<string>, token: string, on: Flag, off: Flag, otherwise: bool)
    requires FlagOf(token).Some?
    ensures LastSwitch(tokens + [token], on, off, otherwise)
         == Switched(FlagOf(token).value, on, off, LastSwitch(tokens, on, off, otherwise))
  {
    assert (tokens + [token])[..|tokens|] == tokens;
  }

  lemma AsksForHelpSnoc(tokens: seq<string>, token: string)
    requires FlagOf(token).Some?
    ensures AsksForHelp(tokens + [token]) <==> AsksForHelp(tokens) || FlagOf(token).value.H? || FlagOf(token).value.Help?
  {
    hide FlagOf;
    var longer := tokens + [token];
    assert longer[|tokens|] == token;
    assert forall k: nat | k < |tokens| :: longer[k] == tokens[k];
  }

  lemma LastPathSnoc(tokens: seq<string>, token: string, name: Flag, otherwise: string)
    requires FlagOf(token).Some?
    ensures LastPath(tokens + [token], name, otherwise)
         == if FlagOf(token).value == name then ValueOf(token) else LastPath(tokens, name, otherwise)
  {
    assert (tokens + [token])[..|tokens|] == tokens;
  }

  lemma LastSettingsSnoc(tokens: seq<string>, d: Settings, token: string)
    requires FlagOf(token).Some?
    ensures LastSettings(tokens + [token], d) == Updated(LastSettings(tokens, d), FlagOf(token).value, ValueOf(token))
  {
    hide FlagOf, ValueOf, LastSwitch, AsksForHelp, LastPath, Switched;
    AsksForHelpSnoc(tokens, token);
    LastSwitchSnoc(tokens, token, Flag.Cookable, AllRecipes, d.cookableOnly);
    LastPathSnoc(tokens, token, DbPath, d.dbPath);
    LastPathSnoc(tokens, token, ServerConfig, d.serverConfig);
    LastSwitchSnoc(tokens, token, FullInfo, Short, d.fullInfo);
    LastSwitchSnoc(tokens, token, Console, NoConsole, d.console);
    LastSwitchSnoc(tokens, token, Json, NoJson, d.json);
    LastSwitchSnoc(tokens, token, Yaml, NoYaml, d.yaml);
    LastPathSnoc(tokens, token, JsonOut, d.jsonOut);
    LastPathSnoc(tokens, token, YamlOut, d.yamlOut);
  }

  // ---- Parsing ----

  datatype ParseError = UnknownArgument(token: string) | SamePaths(jsonOut: string, yamlOut: string)

  class Args {
    var showHelp: bool
    var cookableOnly: bool
    var dbPath: string
    var serverConfig: string
    var fullInfo: bool
    var console: bool
    var json: bool
    var yaml: bool
    var jsonOut: string
    var yamlOut: string

    function Current(): Settings
      reads this
    {
      Settings(showHelp, cookableOnly, dbPath, serverConfig, fullInfo, console, json, yaml, jsonOut, yamlOut)
    }

    constructor (d: Settings)
      ensures Current() == d
    {
      showHelp, cookableOnly, dbPath, serverConfig := d.showHelp, d.cookableOnly, d.dbPath, d.serverConfig;
      fullInfo, console, json, yaml, jsonOut, yamlOut := d.fullInfo, d.console, d.json, d.yaml, d.jsonOut, d.yamlOut;
    }

    method SetBoolFlag(flag: Flag)
      requires TypeOf(flag) == BoolFlag
      modifies this`showHelp, this`cookableOnly, this`fullInfo, this`console, this`json, this`yaml
      ensures showHelp == (old(showHelp) || flag.H? || flag.Help?)
      ensures cookableOnly == (flag.Cookable? || (old(cookableOnly) && !flag.AllRecipes?))
      ensures fullInfo == (flag.FullInfo? || (old(fullInfo) && !flag.Short?))
      ensures console == (flag.Console? || (old(console) && !flag.NoConsole?))
      ensures json == (flag.Json? || (old(json) && !flag.NoJson?))
      ensures yaml == (flag.Yaml? || (old(yaml) && !flag.NoYaml?))
    {
      if flag.H? || flag.Help? { showHelp := true; }
      if flag.FullInfo? { fullInfo := true; }
      if flag.Short? { fullInfo := false; }
      if flag.Console? { console := true; }
      if flag.NoConsole? { console := false; }
      if flag.Json? { json := true; }
      if flag.NoJson? { json := false; }
      if flag.Yaml? { yaml := true; }
      if flag.NoYaml? { yaml := false; }
      if flag.AllRecipes? { cookableOnly := false; }
      if flag.Cookable? { cookableOnly := true; }
    }

    method SetValueFlag(flag: Flag, value: string) returns (r: Result<(), ParseError>)
      requires TypeOf(flag) == ValueFlag
      modifies this`jsonOut, this`yamlOut, this`dbPath, this`serverConfig
      ensures jsonOut == if flag.JsonOut? then value else old(jsonOut)
      ensures yamlOut == if flag.YamlOut? then value else old(yamlOut)
      ensures dbPath == if flag.DbPath? then value else old(dbPath)
      ensures serverConfig == if flag.ServerConfig? then value else old(serverConfig)
      ensures r == if SamePath(jsonOut, yamlOut) then Err(SamePaths(jsonOut, yamlOut)) else Ok(())
    {
      hide SamePath;
      if flag.JsonOut? {
        jsonOut := value;
      } else if flag.YamlOut? {
        yamlOut := value;
      } else if flag.DbPath? {
        dbPath := value;
      } else if flag.ServerConfig? {
        serverConfig := value;
      }
      r := if SamePath(jsonOut, yamlOut) then Err(SamePaths(jsonOut, yamlOut)) else Ok(());
    }
  }

  lemma BoolFlagUpdates(s: Settings, flag: Flag, value: string)
    requires TypeOf(flag) == BoolFlag
    ensures Updated(s, flag, value)
         == s.(showHelp := s.showHelp || flag.H? || flag.Help?,
               cookableOnly := flag.Cookable? || (s.cookableOnly && !flag.AllRecipes?),
               fullInfo := flag.FullInfo? || (s.fullInfo && !flag.Short?),
               console := flag.Console? || (s.console && !flag.NoConsole?),
               json := flag.Json? || (s.json && !flag.NoJson?),
               yaml := flag.Yaml? || (s.yaml && !flag.NoYaml?))
  {
  }

  lemma ValueFlagUpdates(s: Settings, flag: Flag, value: string)
    requires TypeOf(flag) == ValueFlag
    ensures Updated(s, flag, value)
         == s.(dbPath := if flag.DbPath? then value else s.dbPath,
               serverConfig := if flag.ServerConfig? then value else s.serverConfig,
               jsonOut := if flag.JsonOut? then value else s.jsonOut,
               yamlOut := if flag.YamlOut? then value else s.yamlOut)
  {
  }

  lemma CommandFlagUpdates(s: Settings, flag: Flag, value: string)
    requires TypeOf(flag) == CommandFlag
    ensures Updated(s, flag, value) == s
  {
  }

  /** One token: whether it stops the parse, and otherwise the settings after it. */
  method TakeToken(parsed: Args, token: string) returns (r: Result<(), ParseError>)
    modifies parsed
    ensures !IsValidToken(token) ==> r == Err(UnknownArgument(token)) && parsed.Current() == old(parsed.Current())
    ensures IsValidToken(token) ==>
              && parsed.Current() == Updated(old(parsed.Current()), FlagOf(token).value, ValueOf(token))
              && r == if IsValueToken(token) && SamePath(parsed.jsonOut, parsed.yamlOut)
                      then Err(SamePaths(parsed.jsonOut, parsed.yamlOut)) else Ok(())
  {
    hide NameOf, FlagNamed, SplitOption, SamePath, Updated;
    ghost var before := parsed.Current();
    if !IsValidToken(token) {
      return Err(UnknownArgument(token));
    }
    var flag, value := FlagOf(token).value, ValueOf(token);
    // A valid token has a type, so the "unknown type" error is never reported.
    match TypeOf(flag)
    case ValueFlag =>
      r := parsed.SetValueFlag(flag, value);
      ValueFlagUpdates(before, flag, value);
    case BoolFlag =>
      parsed.SetBoolFlag(flag);
      BoolFlagUpdates(before, flag, value);
      r := Ok(());
    case CommandFlag =>
      CommandFlagUpdates(before, flag, value);
      r := Ok(());
  }

  /** What the error says about the token that stops the parse. */
  predicate Explains(error: ParseError, tokens: seq<string>, d: Settings, k: nat)
    requires k < |tokens|
  {
    error == if IsValidToken(tokens[k])
             then SamePaths(LastJsonOut(tokens[..k + 1], d), LastYamlOut(tokens[..k + 1], d))
             else UnknownArgument(tokens[k])
  }

  /** The arguments after the program name, parsed left to right. Parsing succeeds exactly when no
      token stops it; then every setting comes from the last token that sets it. Otherwise the error
      is about the first token that stops it. */
  method ParseArgs(argv: seq<string>, d: Settings) returns (r: Result<Settings, ParseError>)
    ensures var tokens := if argv == [] then [] else argv[1..];
            match r
            case Ok(settings) =>
              && (forall k: nat | k < |tokens| :: !FailsAt(tokens, d, k))
              && settings == LastSettings(tokens, d)
            case Err(error) =>
              exists k: nat | k < |tokens| ::
                && FailsAt(tokens, d, k) && (forall j: nat | j < k :: !FailsAt(tokens, d, j))
                && Explains(error, tokens, d, k)
  {
    hide Updated, IsValidToken, IsValueToken, FlagOf, ValueOf, LastSwitch, AsksForHelp, LastPath, SamePath;
    var parsed := new Args(d);
    LastOfNone(d);
    if argv == [] {
      return Ok(parsed.Current());
    }
    ghost var tokens := argv[1..];
    assert tokens[..0] == [];
    for i := 1 to |argv|
      invariant parsed.Current() == LastSettings(tokens[..i - 1], d)
      invariant forall j: nat | j < i - 1 :: !FailsAt(tokens, d, j)
    {
      assert tokens[i - 1] == argv[i];
      assert tokens[..i] == tokens[..i - 1] + [argv[i]];
      ValidNamesFlag(argv[i]);
      if IsValidToken(argv[i]) {
        LastSettingsSnoc(tokens[..i - 1], d, argv[i]);
      }
      var taken := TakeToken(parsed, argv[i]);
      if taken.Err? {
        assert FailsAt(tokens, d, i - 1) && Explains(taken.error, tokens, d, i - 1);
        return Err(taken.error);
      }
    }
    assert tokens[..|tokens|] == tokens;
    r := Ok(parsed.Current());
  }

  lemma ValidNamesFlag(token: string)
    ensures IsValidToken(token) ==> FlagOf(token).Some?
  {
  }

  // ---- The two output paths ----

  lemma {:induction false} CollapseKeepsEnd(path: string)
    requires path != [] && path[|path| - 1] != '/'
    ensures CollapseSlashes(path) != [] && CollapseSlashes(path)[|CollapseSlashes(path)| - 1] == path[|path| - 1]
    decreases |path|
  {
    if |path| >= 2 {
      assert path[1..][|path| - 2] == path[|path| - 1];
      CollapseKeepsEnd(path[1..]);
    }
  }

  lemma DefaultPathsDiffer(dataDir: string, outDir: string)
    ensures !SamePath(Defaults(dataDir, outDir).jsonOut, Defaults(dataDir, outDir).yamlOut)
  {
    var json, yaml := outDir + "/info.json", outDir + "/info.yaml";
    assert json[|json| - 1] == 'n' && yaml[|yaml| - 1] == 'l';
    CollapseKeepsEnd(json);
    CollapseKeepsEnd(yaml);
  }

  /** After a successful parse the output paths differ: they did by default, and every token that
      changes one of them was checked. */
  lemma {:induction false} SuccessKeepsPathsApart(tokens: seq<string>, d: Settings)
    requires !SamePath(d.jsonOut, d.yamlOut)
    requires forall k: nat | k < |tokens| :: !FailsAt(tokens, d, k)
    ensures !SamePath(LastJsonOut(tokens, d), LastYamlOut(tokens, d))
  {
    if tokens != [] {
      var n := |tokens| - 1;
      var front := tokens[..n];
      assert tokens[..n + 1] == tokens == front + [tokens[n]];
      assert !FailsAt(tokens, d, n);
      if !IsValueToken(tokens[n]) {
        forall k: nat | k < n ensures !FailsAt(front, d, k) {
          assert front[..k + 1] == tokens[..k + 1];
          assert !FailsAt(tokens, d, k);
        }
        SuccessKeepsPathsApart(front, d);
        LastSettingsSnoc(front, d, tokens[n]);
      }
    }
  }

  lemma NamesHaveNoValue(flag: Flag)
    ensures NameOf(flag) != "" && NameOf(flag)[0] == '-' && '=' !in NameOf(flag)
  {
  }

  /** A flag's name, `=` and a value make a token that names this flag with this value. */
  lemma JoinedNamesFlag(flag: Flag, value: string)
    requires TypeOf(flag) == ValueFlag && value != ""
    ensures var token := NameOf(flag) + "=" + value;
            IsValidToken(token) && FlagOf(token) == Some(flag) && ValueOf(token) == value
  {
    hide NameOf, SplitOption;
    NamesHaveNoValue(flag);
    SplitJoined(NameOf(flag), value);
  }

  /** Different paths in the end are not enough: swapping the two defaults is refused, because the
      first of the two flags makes them equal for a moment. */
  lemma TransientClash(d: Settings)
    requires d.jsonOut != "" && d.yamlOut != "" && !SamePath(d.jsonOut, d.yamlOut)
    ensures var tokens := [NameOf(JsonOut) + "=" + d.yamlOut, NameOf(YamlOut) + "=" + d.jsonOut];
            && IsValidToken(tokens[0]) && IsValidToken(tokens[1])
            && FailsAt(tokens, d, 0)
            && LastJsonOut(tokens, d) == d.yamlOut && LastYamlOut(tokens, d) == d.jsonOut
  {
    hide NameOf, FlagOf, ValueOf, IsValidToken, LastSwitch, LastPath, CollapseSlashes, Updated;
    var first, second := NameOf(JsonOut) + "=" + d.yamlOut, NameOf(YamlOut) + "=" + d.jsonOut;
    JoinedNamesFlag(JsonOut, d.yamlOut);
    JoinedNamesFlag(YamlOut, d.jsonOut);
    LastOfNone(d);
    LastSettingsSnoc([], d, first);
    ValueFlagUpdates(d, JsonOut, d.yamlOut);
    LastSettingsSnoc([first], d, second);
    ValueFlagUpdates(LastSettings([first], d), YamlOut, d.jsonOut);
    var tokens := [first, second];
    assert tokens == [first] + [second] && tokens[..1] == [first] == [] + [first];
  }

  lemma LastOfNone(d: Settings)
    ensures LastSettings([], d) == d
  {
  }

  // ---- Tokens as text ----

  lemma {:induction false} SplitRebuilds(token: string)
    ensures '=' !in OptionOf(token)
    ensures token == OptionOf(token) + "=" + ValueOf(token) || (token == OptionOf(token) && ValueOf(token) == "")
  {
    if token != "" && token[0] != '=' {
      SplitRebuilds(token[1..]);
      assert token == [token[0]] + token[1..];
    }
  }

  /** A name alone or followed by `=` has no value; after `=` comes the value. */
  lemma FormsOfFlag(flag: Flag, value: string)
    ensures FlagOf(NameOf(flag)) == Some(flag) && ValueOf(NameOf(flag)) == ""
    ensures FlagOf(NameOf(flag) + "=" + value) == Some(flag) && ValueOf(NameOf(flag) + "=" + value) == value
  {
    hide NameOf, SplitOption;
    NamesHaveNoValue(flag);
    SplitJoined(NameOf(flag), value);
  }

  /** Which tokens are valid, for every flag: a switch or command needs an empty value, a value flag
      needs one. */
  lemma FormsValid(flag: Flag, value: string)
    ensures IsValidToken(NameOf(flag)) <==> TypeOf(flag) != ValueFlag
    ensures IsValidToken(NameOf(flag) + "=" + value) <==> if TypeOf(flag) == ValueFlag then value != "" else value == ""
  {
    FormsOfFlag(flag, value);
    NamesHaveNoValue(flag);
    hide NameOf, FlagOf, ValueOf, TypeOf;
    assert (NameOf(flag) + "=" + value)[0] == NameOf(flag)[0];
  }

  /** The token is this flag in a form that its kind allows. */
  predicate IsForm(token: string, flag: Flag, value: string) {
    if TypeOf(flag) == ValueFlag then value != "" && token == NameOf(flag) + "=" + value
    else token == NameOf(flag) || token == NameOf(flag) + "="
  }

  /** And no other token is valid. */
  lemma ValidExactly(token: string)
    ensures IsValidToken(token) <==> exists flag, value :: IsForm(token, flag, value)
  {
    hide NameOf, FlagNamed, SplitOption, TypeOf;
    if IsValidToken(token) {
      SplitRebuilds(token);
      var flag := FlagOf(token).value;
      assert NameOf(flag) == OptionOf(token);
      assert NameOf(flag) + "=" + "" == NameOf(flag) + "=";
      assert IsForm(token, flag, ValueOf(token));
    }
    if flag, value :| IsForm(token, flag, value) {
      FormsValid(flag, value);
      FormsValid(flag, "");
      assert NameOf(flag) + "=" + "" == NameOf(flag) + "=";
    }
  }

  lemma MustStartWithDash(token: string)
    requires token == "" || token[0] != '-'
    ensures !IsValidToken(token)
  {
  }

  /** The names of the switches, of the value flags and of the commands. */
  lemma NamesInText()
    ensures NameOf(H) == "-h" && NameOf(Help) == "--help"
    ensures NameOf(FullInfo) == "--full-info" && NameOf(Short) == "--short"
    ensures NameOf(Console) == "--console" && NameOf(NoConsole) == "--no-console"
    ensures NameOf(Json) == "--json" && NameOf(NoJson) == "--no-json"
    ensures NameOf(Yaml) == "--yaml" && NameOf(NoYaml) == "--no-yaml"
    ensures NameOf(AllRecipes) == "--all-recipes" && NameOf(Flag.Cookable) == "--cookable"
    ensures NameOf(JsonOut) == "--json-out" && NameOf(YamlOut) == "--yaml-out"
    ensures NameOf(DbPath) == "--db-path" && NameOf(ServerConfig) == "--server-config"
    ensures NameOf(AddProducts) == "--add-products" && NameOf(AddRecipes) == "--add-recipes"
    ensures NameOf(ListProducts) == "--list-products" && NameOf(ListRecipes) == "--list-recipes"
  {
  }

  // ---- What one argument does ----

  /** Parsing these tokens succeeds with these settings. */
  ghost predicate ParsesTo(tokens: seq<string>, d: Settings, settings: Settings) {
    (forall k: nat | k < |tokens| :: !FailsAt(tokens, d, k)) && LastSettings(tokens, d) == settings
  }

  lemma OneToken(token: string, flag: Flag, value: string, d: Settings)
    requires IsValidToken(token) && FlagOf(token) == Some(flag) && ValueOf(token) == value
    ensures var after := Updated(d, flag, value);
            if TypeOf(flag) == ValueFlag && SamePath(after.jsonOut, after.yamlOut) then FailsAt([token], d, 0)
            else ParsesTo([token], d, after)
  {
    hide IsValidToken, FlagOf, ValueOf, Updated, SamePath, LastSwitch, LastPath, AsksForHelp, TypeOf;
    LastOfNone(d);
    LastSettingsSnoc([], d, token);
    assert [] + [token] == [token] && [token][..1] == [token];
  }

  /** Each switch and each command alone: what it sets, every other setting staying as it was. */
  lemma SwitchEffects(flag: Flag, d: Settings)
    ensures match flag
            case H => ParsesTo(["-h"], d, d.(showHelp := true))
            case Help => ParsesTo(["--help"], d, d.(showHelp := true))
            case FullInfo => ParsesTo(["--full-info"], d, d.(fullInfo := true))
            case Short => ParsesTo(["--short"], d, d.(fullInfo := false))
            case Console => ParsesTo(["--console"], d, d.(console := true))
            case NoConsole => ParsesTo(["--no-console"], d, d.(console := false))
            case Json => ParsesTo(["--json"], d, d.(json := true))
            case NoJson => ParsesTo(["--no-json"], d, d.(json := false))
            case Yaml => ParsesTo(["--yaml"], d, d.(yaml := true))
            case NoYaml => ParsesTo(["--no-yaml"], d, d.(yaml := false))
            case AllRecipes => ParsesTo(["--all-recipes"], d, d.(cookableOnly := false))
            case Cookable => ParsesTo(["--cookable"], d, d.(cookableOnly := true))
            case AddProducts => ParsesTo(["--add-products"], d, d)
            case AddRecipes => ParsesTo(["--add-recipes"], d, d)
            case ListProducts => ParsesTo(["--list-products"], d, d)
            case ListRecipes => ParsesTo(["--list-recipes"], d, d)
            case _ => TypeOf(flag) == ValueFlag
  {
    hide NameOf, ParsesTo, Updated, FlagOf, ValueOf, IsValidToken;
    NamesInText();
    FormsOfFlag(flag, "");
    FormsValid(flag, "");
    if TypeOf(flag) != ValueFlag {
      OneToken(NameOf(flag), flag, "", d);
      if TypeOf(flag) == BoolFlag { BoolFlagUpdates(d, flag, ""); } else { CommandFlagUpdates(d, flag, ""); }
    }
  }

  /** Each value flag: its path takes the value, unless the two output paths are then the same. */
  lemma ValueEffects(flag: Flag, value: string, d: Settings)
    requires value != ""
    ensures match flag
            case JsonOut => PathEffect("--json-out=" + value, d, d.(jsonOut := value))
            case YamlOut => PathEffect("--yaml-out=" + value, d, d.(yamlOut := value))
            case DbPath => PathEffect("--db-path=" + value, d, d.(dbPath := value))
            case ServerConfig => PathEffect("--server-config=" + value, d, d.(serverConfig := value))
            case _ => TypeOf(flag) != ValueFlag
  {
    hide NameOf, PathEffect, Updated, FlagOf, ValueOf, IsValidToken;
    if TypeOf(flag) == ValueFlag {
      NameAndSign(flag, value);
      FormsOfFlag(flag, value);
      FormsValid(flag, value);
      PathToken(NameOf(flag) + "=" + value, flag, value, d);
      ValueFlagUpdates(d, flag, value);
    }
  }

  ghost predicate PathEffect(token: string, d: Settings, after: Settings) {
    if SamePath(after.jsonOut, after.yamlOut) then FailsAt([token], d, 0) else ParsesTo([token], d, after)
  }

  lemma PathToken(token: string, flag: Flag, value: string, d: Settings)
    requires IsValidToken(token) && FlagOf(token) == Some(flag) && ValueOf(token) == value && TypeOf(flag) == ValueFlag
    ensures PathEffect(token, d, Updated(d, flag, value))
  {
    hide IsValidToken, FlagOf, ValueOf, Updated, SamePath, TypeOf, FailsAt, ParsesTo;
    OneToken(token, flag, value, d);
  }

  lemma NameAndSign(flag: Flag, value: string)
    requires TypeOf(flag) == ValueFlag
    ensures NameOf(flag) + "=" + value
         == match flag
            case JsonOut => "--json-out=" + value
            case YamlOut => "--yaml-out=" + value
            case DbPath => "--db-path=" + value
            case _ => "--server-config=" + value
  {
    assert NameOf(flag) + "="
        == match flag case JsonOut => "--json-out=" case YamlOut => "--yaml-out=" case DbPath => "--db-path=" case _ => "--server-config=";
  }

  /** No argument: the defaults. */
  lemma NoArguments(dataDir: string, outDir: string)
    ensures exists settings ::
              && ParsesTo([], Defaults(dataDir, outDir), settings)
              && !settings.showHelp && !settings.cookableOnly && settings.serverConfig == ""
              && settings.fullInfo && settings.console && settings.json && settings.yaml
              && settings.dbPath == dataDir + "/table.db"
              && settings.jsonOut == outDir + "/info.json" && settings.yamlOut == outDir + "/info.yaml"
  {
    LastOfNone(Defaults(dataDir, outDir));
    assert ParsesTo([], Defaults(dataDir, outDir), Defaults(dataDir, outDir));
  }

  // ---- Equal paths ----

  lemma {:induction false} CollapseJoined(a: string, b: string)
    ensures CollapseSlashes(a + "//" + b) == CollapseSlashes(a + "/" + b)
    decreases |a|
  {
    if a == "" {
      assert ("" + "//" + b)[1..] == "" + "/" + b;
    } else {
      CollapseJoined(a[1..], b);
      assert (a + "//" + b)[1..] == a[1..] + "//" + b && (a + "/" + b)[1..] == a[1..] + "/" + b;
      assert a[1..] != "" ==> (a + "//" + b)[1] == a[1] == (a + "/" + b)[1];
    }
  }

  predicate HasDoubledSlash(path: string) { exists k: nat | k + 1 < |path| :: path[k] == '/' && path[k + 1] == '/' }

  lemma {:induction false} CollapseOnlyDoubled(path: string)
    requires !HasDoubledSlash(path)
    ensures CollapseSlashes(path) == path
  {
    if path != "" {
      assert |path| >= 2 ==> !(path[0] == '/' && path[0 + 1] == '/');
      forall k: nat | k + 1 < |path[1..]| ensures !(path[1..][k] == '/' && path[1..][k + 1] == '/') {
        assert !(path[k + 1] == '/' && path[k + 1 + 1] == '/');
      }
      CollapseOnlyDoubled(path[1..]);
      assert path == [path[0]] + path[1..];
    }
  }

  /** Which paths are the same: writing a slash twice makes no difference, and between paths without
      doubled slashes every difference counts. */
  lemma SamePathMeaning(a: string, b: string)
    ensures SamePath(a + "//" + b, a + "/" + b)
    ensures !HasDoubledSlash(a) && !HasDoubledSlash(b) ==> (SamePath(a, b) <==> a == b)
  {
    hide CollapseSlashes, HasDoubledSlash;
    CollapseJoined(a, b);
    if !HasDoubledSlash(a) && !HasDoubledSlash(b) {
      CollapseOnlyDoubled(a);
      CollapseOnlyDoubled(b);
    }
  }
}
