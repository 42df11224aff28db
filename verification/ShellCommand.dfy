/** The forced SSH command: parsing it, and the many spellings of one command. */
module ShellCommand {
  import opened Prelude
  import opened Text

  datatype Service = UploadPack | ReceivePack | UploadArchive

  datatype Action = Git(service: Service) | Lfs(canWrite: bool)

  datatype Command = Command(action: Action, namespace: string, project: string)

  // ---------------------------------------------------------------- the parser

  function FromWire(name: string): Option<Service> {
    if name == "git-upload-pack" then Some(UploadPack)
    else if name == "git-receive-pack" then Some(ReceivePack)
    else if name == "git-upload-archive" then Some(UploadArchive)
    else None
  }

  const LFS_AUTHENTICATE := "git-lfs-authenticate"

  function SplitOnce(s: string, n: nat): Option<(string, string)>
    requires n <= |s|
  {
    if n == |s| then None else Some((s[..n], s[n + 1..]))
  }

  function StripPrefix(s: string, c: char): string {
    if s != [] && s[0] == c then s[1..] else s
  }

  function StripSuffix(s: string, suffix: string): string {
    if EndsWith(s, suffix) then s[..|s| - |suffix|] else s
  }

  predicate IsControl(c: char) {
    c as int < 0x20 || 0x7F <= c as int <= 0x9F
  }

  predicate IsQuote(c: char) {
    c == '\'' || c == '"'
  }

  predicate IsMeta(c: char) {
    IsQuote(c) || c == '\\' || c == ';' || c == '`' || c == '$'
  }

  predicate HasWhitespace(s: string) {
    exists i | 0 <= i < |s| :: IsWhitespace(s[i])
  }

  predicate HasMeta(s: string) {
    exists i | 0 <= i < |s| :: IsMeta(s[i])
  }

  predicate HasControl(s: string) {
    exists i | 0 <= i < |s| :: IsControl(s[i])
  }

  const DIGITS := "0123456789"
  const CAPITALS := "ABCDEFGHIJKLMNOPQRSTUVWXYZ"
  const SMALL := "abcdefghijklmnopqrstuvwxyz"

  /** The characters the command line treats specially, listed. */
  lemma {:induction false} SpecialCharacters(c: char)
    ensures IsControl(c) <==> c as int <= 31 || (c as int >= 127 && c as int <= 159)
    ensures IsQuote(c) <==> c in "'\""
    ensures IsMeta(c) <==> c in "'\"\\;`$"
  {
  }

  /** The three tests look at every character of a string. */
  lemma {:induction false} AnyCharacterCounts(s: string, i: nat)
    requires i < |s|
    ensures IsControl(s[i]) ==> HasControl(s)
    ensures IsWhitespace(s[i]) ==> HasWhitespace(s)
    ensures IsMeta(s[i]) ==> HasMeta(s)
  {
  }

  /** The command name, with `git x` read as `git-x`, and its trimmed argument. */
  function SplitName(raw: string): Option<(string, string)> {
    var command := Trim(raw);
    match SplitOnce(command, WordEnd(command))
    case None => None
    case Some((name, argument)) =>
      if name == "git" then
        var after := TrimStart(argument);
        match SplitOnce(after, WordEnd(after))
        case None => None
        case Some((subcommand, rest)) => Some(("git-" + subcommand, Trim(rest)))
      else Some((name, Trim(argument)))
  }

  function UnquoteSingleArgument(argument: string): Option<string> {
    var n := |argument|;
    if n >= 2 && IsQuote(argument[0]) && argument[n - 1] == argument[0] then
      var inner := argument[1..n - 1];
      if argument[0] in inner then None else Some(inner)
    else if HasWhitespace(argument) || HasMeta(argument) then None
    else Some(argument)
  }

  function SplitQuoted(argument: string): Option<(string, string)>
    requires argument != ""
  {
    var rest := argument[1..];
    var end := FirstAt(rest, argument[0]);
    if end == |rest| then None
    else
      var operation := Trim(rest[end + 1..]);
      if HasWhitespace(operation) || operation == "" then None else Some((rest[..end], operation))
  }

  function SplitBare(argument: string): Option<(string, string)> {
    var parts := Words(argument);
    if |parts| != 2 || HasMeta(parts[0]) then None else Some((parts[0], parts[1]))
  }

  function SplitLfsArguments(argument: string): Option<(string, string)> {
    var trimmed := Trim(argument);
    if trimmed != "" && IsQuote(trimmed[0]) then SplitQuoted(trimmed) else SplitBare(trimmed)
  }

  function SplitCore(core: string): Option<(string, string)> {
    match SplitOnce(core, FirstAt(core, '/'))
    case None => None
    case Some((namespace, project)) =>
      if namespace == "" || project == "" || '/' in project || HasControl(namespace) || HasControl(project) then None
      else Some((namespace, project))
  }

  function ParseRepositoryPath(path: string): Option<(string, string)> {
    SplitCore(StripSuffix(StripPrefix(path, '/'), ".git"))
  }

  function ActionAndPath(name: string, argument: string): Option<(Action, string)> {
    if name == LFS_AUTHENTICATE then
      match SplitLfsArguments(argument)
      case None => None
      case Some((path, operation)) =>
        if operation == "upload" then Some((Lfs(true), path))
        else if operation == "download" then Some((Lfs(false), path))
        else None
    else
      match FromWire(name)
      case None => None
      case Some(service) =>
        match UnquoteSingleArgument(argument)
        case None => None
        case Some(path) => Some((Git(service), path))
  }

  function ParseCommand(raw: string): Option<Command> {
    match SplitName(raw)
    case None => None
    case Some((name, argument)) =>
      match ActionAndPath(name, argument)
      case None => None
      case Some((action, path)) =>
        match ParseRepositoryPath(path)
        case None => None
        case Some((namespace, project)) => Some(Command(action, namespace, project))
  }

  // ---------------------------------------------------------------- spellings

  datatype Quoting = Bare | Quoted(quote: char)

  /** How a client may write a command: `git-x` or `git x`, quoting, leading slash, `.git` suffix. */
  datatype Spelling = Spelling(dashed: bool, quoting: Quoting, slash: bool, suffix: bool)

  /** The whitespace around and between the parts of a command. */
  datatype Spacing = Spacing(lead: string, afterGit: string, afterName: string, beforeOperation: string, tail: string)

  function Subcommand(action: Action): string {
    match action
    case Git(UploadPack) => "upload-pack"
    case Git(ReceivePack) => "receive-pack"
    case Git(UploadArchive) => "upload-archive"
    case Lfs(_) => "lfs-authenticate"
  }

  function SpellPath(sp: Spelling, namespace: string, project: string): string {
    (if sp.slash then "/" else "") + (namespace + "/" + project) + (if sp.suffix then ".git" else "")
  }

  function Enquote(quoting: Quoting, path: string): string {
    match quoting
    case Bare => path
    case Quoted(q) => [q] + path + [q]
  }

  function Operation(canWrite: bool): string {
    if canWrite then "upload" else "download"
  }

  function SpellArgument(sp: Spelling, g: Spacing, c: Command): string {
    var path := Enquote(sp.quoting, SpellPath(sp, c.namespace, c.project));
    match c.action
    case Git(_) => path
    case Lfs(canWrite) => path + g.beforeOperation + Operation(canWrite)
  }

  function SpellName(dashed: bool, afterGit: string, subcommand: string): string {
    if dashed then "git-" + subcommand else "git" + afterGit + subcommand
  }

  function Spell(sp: Spelling, g: Spacing, c: Command): string {
    var name := SpellName(sp.dashed, g.afterGit, Subcommand(c.action));
    g.lead + (name + g.afterName + SpellArgument(sp, g, c)) + g.tail
  }

  predicate IsPart(s: string) {
    s != "" && '/' !in s && !HasControl(s)
  }

  /** The spelling can carry this name: a bare one has no whitespace or shell characters, a quoted one not its quote. */
  predicate Carries(quoting: Quoting, s: string) {
    match quoting
    case Bare => !HasWhitespace(s) && !HasMeta(s)
    case Quoted(q) => IsQuote(q) && q !in s
  }

  predicate Separates(sp: Spelling, g: Spacing, action: Action) {
    && IsBlank(g.lead) && IsBlank(g.tail) && IsGap(g.afterName)
    && (sp.dashed || IsGap(g.afterGit))
    && (action.Lfs? ==> IsBlank(g.beforeOperation) && (sp.quoting.Bare? ==> g.beforeOperation != ""))
  }

  /** The names are proper parts that the quoting can carry, and whitespace separates what it must. */
  predicate Spellable(sp: Spelling, g: Spacing, c: Command) {
    && IsPart(c.namespace) && IsPart(c.project) && Carries(sp.quoting, c.namespace) && Carries(sp.quoting, c.project)
    && (!sp.suffix ==> !EndsWith(c.project, ".git"))
    && Separates(sp, g, c.action)
  }

  // ---------------------------------------------------------------- every spelling parses

  lemma {:induction false} WordConcat(a: string, b: string)
    requires IsWord(a) && IsWord(b)
    ensures IsWord(a + b)
  {
  }

  lemma {:induction false} SubcommandIsWord(action: Action)
    ensures IsWord(Subcommand(action)) && Subcommand(action) != ""
  {
  }

  lemma {:induction false} CarriesPath(sp: Spelling, namespace: string, project: string)
    requires Carries(sp.quoting, namespace) && Carries(sp.quoting, project) && namespace != ""
    ensures Carries(sp.quoting, SpellPath(sp, namespace, project)) && SpellPath(sp, namespace, project) != ""
  {
  }

  lemma {:induction false} ReadCore(namespace: string, project: string)
    requires IsPart(namespace) && IsPart(project)
    ensures SplitCore(namespace + "/" + project) == Some((namespace, project))
  {
    var core := namespace + "/" + project;
    FirstAtOf(namespace, '/', project);
    assert core[..|namespace|] == namespace && core[|namespace| + 1..] == project;
  }

  lemma {:induction false} ReadPath(sp: Spelling, namespace: string, project: string)
    requires IsPart(namespace) && IsPart(project) && (!sp.suffix ==> !EndsWith(project, ".git"))
    ensures ParseRepositoryPath(SpellPath(sp, namespace, project)) == Some((namespace, project))
  {
    var core := namespace + "/" + project;
    var path := SpellPath(sp, namespace, project);
    var stripped := StripPrefix(path, '/');
    assert stripped == core + (if sp.suffix then ".git" else "");
    assert StripSuffix(stripped, ".git") == core by {
      if sp.suffix {
        assert stripped[|core|..] == ".git" && stripped[..|core|] == core;
      } else {
        assert stripped == core;
        NoSuffix(namespace, project);
      }
    }
    ReadCore(namespace, project);
  }

  lemma {:induction false} NoSuffix(namespace: string, project: string)
    requires !EndsWith(project, ".git") && project != ""
    ensures !EndsWith(namespace + "/" + project, ".git")
  {
    var core := namespace + "/" + project;
    assert |project| >= 4 ==> core[|core| - 4..] == project[|project| - 4..];
    assert |project| < 4 <= |core| ==> core[|core| - 4..][3 - |project|] == '/';
  }

  lemma {:induction false} Unquoted(quoting: Quoting, path: string)
    requires Carries(quoting, path) && path != ""
    ensures UnquoteSingleArgument(Enquote(quoting, path)) == Some(path)
    ensures IsTrimmed(Enquote(quoting, path))
  {
  }

  lemma {:induction false} OperationIsWord(canWrite: bool)
    ensures IsWord(Operation(canWrite)) && !HasWhitespace(Operation(canWrite)) && IsTrimmed(Operation(canWrite))
  {
  }

  lemma {:induction false} ReadQuoted(q: char, path: string, gap: string, operation: string)
    requires q !in path && IsBlank(gap) && IsWord(operation) && IsTrimmed(operation) && !HasWhitespace(operation)
    ensures SplitQuoted([q] + path + [q] + gap + operation) == Some((path, operation))
  {
    var argument := [q] + path + [q] + gap + operation;
    var rest := argument[1..];
    assert rest == path + [q] + (gap + operation);
    FirstAtOf(path, q, gap + operation);
    assert rest[..|path|] == path && rest[|path| + 1..] == gap + operation;
    TrimPadded(gap, operation, "");
    assert gap + operation + "" == gap + operation;
  }

  lemma {:induction false} ReadBare(path: string, gap: string, operation: string)
    requires Carries(Bare, path) && path != "" && IsGap(gap) && IsWord(operation)
    ensures SplitBare(path + gap + operation) == Some((path, operation))
  {
    assert forall i | 0 <= i < |path| :: !IsWhitespace(path[i]);
    TwoWords(path, gap, operation);
  }

  lemma {:induction false} LfsArguments(quoting: Quoting, path: string, gap: string, canWrite: bool)
    requires Carries(quoting, path) && path != "" && IsBlank(gap) && (quoting.Bare? ==> gap != "")
    ensures SplitLfsArguments(Enquote(quoting, path) + gap + Operation(canWrite)) == Some((path, Operation(canWrite)))
    ensures IsTrimmed(Enquote(quoting, path) + gap + Operation(canWrite))
  {
    var operation := Operation(canWrite);
    var argument := Enquote(quoting, path) + gap + operation;
    OperationIsWord(canWrite);
    Unquoted(quoting, path);
    assert argument[0] == Enquote(quoting, path)[0] && argument[|argument| - 1] == operation[|operation| - 1];
    TrimTrimmed(argument);
    match quoting
    case Quoted(q) => ReadQuoted(q, path, gap, operation);
    case Bare =>
      assert !IsMeta(path[0]);
      ReadBare(path, gap, operation);
  }

  lemma {:induction false} SplitAfterWord(name: string, gap: string, rest: string)
    requires IsWord(name) && IsGap(gap)
    ensures SplitOnce(name + gap + rest, WordEnd(name + gap + rest)) == Some((name, gap[1..] + rest))
  {
    var s := name + gap + rest;
    assert s == name + (gap + rest) && (gap + rest)[0] == gap[0];
    WordEndOf(name, gap + rest);
    assert s[..|name|] == name && s[|name| + 1..] == gap[1..] + rest;
  }

  lemma {:induction false} GapTail(gap: string, s: string)
    requires IsGap(gap) && IsTrimmed(s)
    ensures Trim(gap[1..] + s) == s && TrimStart(gap[1..] + s) == s
  {
    TrimPadded(gap[1..], s, "");
    assert gap[1..] + s + "" == gap[1..] + s;
  }

  /** The part of the command between the outer whitespace is trimmed, and so is what Trim returns. */
  lemma {:induction false} Framed(lead: string, name: string, gap: string, argument: string, tail: string)
    requires IsBlank(lead) && IsBlank(tail) && name != "" && !IsWhitespace(name[0]) && IsTrimmed(argument)
    ensures IsTrimmed(name + gap + argument) && Trim(lead + (name + gap + argument) + tail) == name + gap + argument
  {
    var s := name + gap + argument;
    assert s[0] == name[0] && s[|s| - 1] == argument[|argument| - 1];
    TrimPadded(lead, s, tail);
  }

  lemma {:induction false} ReadDashed(g: Spacing, name: string, argument: string)
    requires IsWord(name) && name != "git" && IsTrimmed(argument)
    requires IsBlank(g.lead) && IsBlank(g.tail) && IsGap(g.afterName)
    ensures SplitName(g.lead + (name + g.afterName + argument) + g.tail) == Some((name, argument))
  {
    Framed(g.lead, name, g.afterName, argument, g.tail);
    SplitAfterWord(name, g.afterName, argument);
    GapTail(g.afterName, argument);
  }

  lemma {:induction false} ReadSpaced(g: Spacing, sub: string, argument: string)
    requires IsWord(sub) && IsTrimmed(argument)
    requires IsBlank(g.lead) && IsBlank(g.tail) && IsGap(g.afterName) && IsGap(g.afterGit)
    ensures SplitName(g.lead + ("git" + g.afterGit + sub + g.afterName + argument) + g.tail)
         == Some(("git-" + sub, argument))
  {
    var rest := sub + g.afterName + argument;
    assert rest[0] == sub[0] && rest[|rest| - 1] == argument[|argument| - 1];
    assert "git" + g.afterGit + sub + g.afterName + argument == "git" + g.afterGit + rest;
    Framed(g.lead, "git", g.afterGit, rest, g.tail);
    SplitAfterWord("git", g.afterGit, rest);
    GapTail(g.afterGit, rest);
    SplitAfterWord(sub, g.afterName, argument);
    GapTail(g.afterName, argument);
  }

  lemma {:induction false} ReadName(dashed: bool, g: Spacing, sub: string, argument: string)
    requires IsWord(sub) && IsTrimmed(argument)
    requires IsBlank(g.lead) && IsBlank(g.tail) && IsGap(g.afterName) && (dashed || IsGap(g.afterGit))
    ensures SplitName(g.lead + (SpellName(dashed, g.afterGit, sub) + g.afterName + argument) + g.tail)
            == Some(("git-" + sub, argument))
  {
    if dashed {
      assert IsWord("git-");
      WordConcat("git-", sub);
      ReadDashed(g, "git-" + sub, argument);
    } else {
      ReadSpaced(g, sub, argument);
    }
  }

  lemma {:induction false} WireName(service: Service)
    ensures "git-" + Subcommand(Git(service)) ==
            match service {
              case UploadPack => "git-upload-pack"
              case ReceivePack => "git-receive-pack"
              case UploadArchive => "git-upload-archive"
            }
  {
  }

  lemma {:induction false} LfsName(canWrite: bool)
    ensures "git-" + Subcommand(Lfs(canWrite)) == LFS_AUTHENTICATE
  {
  }

  lemma {:induction false} WireNames(action: Action)
    ensures action.Git? ==> FromWire("git-" + Subcommand(action)) == Some(action.service)
    ensures "git-" + Subcommand(action) == LFS_AUTHENTICATE <==> action.Lfs?
  {
  }

  lemma {:induction false} ArgumentParses(sp: Spelling, g: Spacing, c: Command)
    requires Carries(sp.quoting, c.namespace) && Carries(sp.quoting, c.project) && c.namespace != ""
    requires Separates(sp, g, c.action)
    ensures IsTrimmed(SpellArgument(sp, g, c))
    ensures ActionAndPath("git-" + Subcommand(c.action), SpellArgument(sp, g, c))
            == Some((c.action, SpellPath(sp, c.namespace, c.project)))
  {
    var path := SpellPath(sp, c.namespace, c.project);
    CarriesPath(sp, c.namespace, c.project);
    WireNames(c.action);
    if c.action.Lfs? {
      LfsArguments(sp.quoting, path, g.beforeOperation, c.action.canWrite);
    } else {
      Unquoted(sp.quoting, path);
    }
  }

  /** Every spelling of a command parses to that command. */
  lemma {:induction false} EverySpellingParses(sp: Spelling, g: Spacing, c: Command)
    requires Spellable(sp, g, c)
    ensures ParseCommand(Spell(sp, g, c)) == Some(c)
  {
    ArgumentParses(sp, g, c);
    SubcommandIsWord(c.action);
    ReadName(sp.dashed, g, Subcommand(c.action), SpellArgument(sp, g, c));
    ReadPath(sp, c.namespace, c.project);
  }

  /** The namespace and project names the server accepts elsewhere. */
  predicate IsAlnum(c: char) {
    '0' <= c <= '9' || 'A' <= c <= 'Z' || 'a' <= c <= 'z'
  }

  predicate ValidPathSegment(s: string) {
    && s != "" && |s| <= 255
    && IsAlnum(s[0])
    && (forall i | 0 <= i < |s| :: IsAlnum(s[i]) || s[i] == '_' || s[i] == '.' || s[i] == '-')
    && !EndsWith(s, ".git") && !EndsWith(s, ".wiki") && !EndsWith(s, ".atom")
  }

  lemma {:induction false} AlnumIs(c: char)
    ensures IsAlnum(c) <==> c in "0123456789" || c in "ABCDEFGHIJKLMNOPQRSTUVWXYZ" || c in "abcdefghijklmnopqrstuvwxyz"
  {
    assert '0' <= c <= '9' ==> DIGITS[c as int - 48] == c;
    assert 'A' <= c <= 'Z' ==> CAPITALS[c as int - 65] == c;
    assert 'a' <= c <= 'z' ==> SMALL[c as int - 97] == c;
    assert forall k | 0 <= k < 10 :: DIGITS[k] as int == 48 + k;
    assert forall k | 0 <= k < 26 :: CAPITALS[k] as int == 65 + k && SMALL[k] as int == 97 + k;
  }

  predicate NameCharacter(c: char) {
    IsAlnum(c) || c in "_.-"
  }

  predicate HasSuffix(s: string, suffix: string) {
    |s| >= |suffix| && s[|s| - |suffix|..] == suffix
  }

  /** The names the server accepts, rule by rule. */
  lemma {:induction false} SegmentRules(s: string)
    ensures ValidPathSegment(s) <==>
            && 1 <= |s| <= 255 && IsAlnum(s[0]) && (forall i | 0 <= i < |s| :: NameCharacter(s[i]))
            && !HasSuffix(s, ".git") && !HasSuffix(s, ".wiki") && !HasSuffix(s, ".atom")
  {
    assert forall i | 0 <= i < |s| ::
             NameCharacter(s[i]) <==> IsAlnum(s[i]) || s[i] == '_' || s[i] == '.' || s[i] == '-';
  }

  /** Valid names are carried by every kind of spelling, for every action. */
  lemma {:induction false} ValidNamesParse(sp: Spelling, g: Spacing, c: Command)
    requires ValidPathSegment(c.namespace) && ValidPathSegment(c.project) && Separates(sp, g, c.action)
    requires sp.quoting.Quoted? ==> IsQuote(sp.quoting.quote)
    ensures ParseCommand(Spell(sp, g, c)) == Some(c)
  {
    SegmentIsPlain(sp.quoting, c.namespace);
    SegmentIsPlain(sp.quoting, c.project);
    EverySpellingParses(sp, g, c);
  }

  lemma {:induction false} SegmentIsPlain(quoting: Quoting, s: string)
    requires ValidPathSegment(s) && (quoting.Quoted? ==> IsQuote(quoting.quote))
    ensures IsPart(s) && Carries(quoting, s)
  {
  }

  // ---------------------------------------------------------------- nothing else parses

  /** A trimmed `x ARGUMENT`. */
  lemma {:induction false} DashedParts(command: string, n: nat) returns (gap: string, argument: string)
    requires IsTrimmed(command) && n < |command| && IsWhitespace(command[n]) && Trim(command[n + 1..]) != ""
    ensures IsGap(gap) && argument == Trim(command[n + 1..]) && IsTrimmed(argument)
    ensures command == command[..n] + gap + argument
  {
    gap, argument := SplitGap(command, n);
  }

  /** A trimmed `git x ARGUMENT`. */
  lemma {:induction false} SpacedParts(command: string, n: nat, after: string, m: nat)
    returns (gitGap: string, gap: string, argument: string)
    requires IsTrimmed(command) && n < |command| && IsWhitespace(command[n]) && after == TrimStart(command[n + 1..])
    requires m < |after| && IsWhitespace(after[m]) && Trim(after[m + 1..]) != ""
    ensures IsGap(gitGap) && IsGap(gap) && argument == Trim(after[m + 1..]) && IsTrimmed(argument)
    ensures command == command[..n] + gitGap + after[..m] + gap + argument
  {
    var rest;
    gitGap, rest := LeadingGap(command, n);
    assert after[|after| - 1] == command[|command| - 1];
    gap, argument := SplitGap(after, m);
    assert command[..n] + gitGap + after == command[..n] + gitGap + after[..m] + gap + argument;
  }

  lemma {:induction false} NameOfSplit(raw: string) returns (dashed: bool, g: Spacing, name: string)
    requires SplitName(raw).Some? && SplitName(raw).value.1 != ""
    ensures var (wire, argument) := SplitName(raw).value;
            && IsTrimmed(argument)
            && IsBlank(g.lead) && IsBlank(g.tail) && IsGap(g.afterName) && (dashed || IsGap(g.afterGit))
            && wire == (if dashed then name else "git-" + name)
            && raw == g.lead + ((if dashed then name else "git" + g.afterGit + name) + g.afterName + argument) + g.tail
  {
    var command := Trim(raw);
    var lead, tail := TrimParts(raw);
    var n := WordEnd(command);
    dashed := command[..n] != "git";
    if dashed {
      name := command[..n];
      var gap, argument := DashedParts(command, n);
      g := Spacing(lead, "", gap, "", tail);
    } else {
      var after := TrimStart(command[n + 1..]);
      var m := WordEnd(after);
      name := after[..m];
      var gitGap, gap, argument := SpacedParts(command, n, after, m);
      g := Spacing(lead, gitGap, gap, "", tail);
    }
  }

  /** From a whitespace character on: that gap, then the trimmed rest. */
  lemma {:induction false} LeadingGap(s: string, n: nat) returns (gap: string, rest: string)
    requires n < |s| && IsWhitespace(s[n])
    ensures IsGap(gap) && rest == TrimStart(s[n + 1..]) && s == s[..n] + gap + rest
    ensures rest == "" || !IsWhitespace(rest[0])
  {
    var lead := TrimStartParts(s[n + 1..]);
    rest := TrimStart(s[n + 1..]);
    gap := [s[n]] + lead;
    assert s == s[..n] + ([s[n]] + s[n + 1..]);
  }

  lemma {:induction false} SplitGap(s: string, n: nat) returns (gap: string, argument: string)
    requires IsTrimmed(s) && n < |s| && IsWhitespace(s[n]) && Trim(s[n + 1..]) != ""
    ensures IsGap(gap) && argument == Trim(s[n + 1..]) && IsTrimmed(argument) && s == s[..n] + gap + argument
  {
    var lead, tail := TrimParts(s[n + 1..]);
    argument := Trim(s[n + 1..]);
    gap := [s[n]] + lead;
    assert s == s[..n] + ([s[n]] + s[n + 1..]);
    GroupGap(s[..n], s[n], lead, argument, tail);
    LastOfConcat(s[..n] + gap + argument, tail);
  }

  lemma {:induction false} GroupGap(front: string, c: char, lead: string, argument: string, tail: string)
    ensures front + ([c] + (lead + argument + tail)) == front + ([c] + lead) + argument + tail
    ensures tail == "" ==> front + ([c] + lead) + argument + tail == front + ([c] + lead) + argument
  {
  }

  lemma {:induction false} QuotingOfArgument(argument: string) returns (quoting: Quoting)
    requires UnquoteSingleArgument(argument).Some?
    ensures argument == Enquote(quoting, UnquoteSingleArgument(argument).value)
    ensures Carries(quoting, UnquoteSingleArgument(argument).value)
  {
    var n := |argument|;
    if n >= 2 && IsQuote(argument[0]) && argument[n - 1] == argument[0] {
      quoting := Quoted(argument[0]);
      assert argument == [argument[0]] + argument[1..n - 1] + [argument[n - 1]];
    } else {
      quoting := Bare;
    }
  }

  lemma {:induction false} QuotedParts(argument: string, q: char, path: string, after: string) returns (gap: string)
    requires argument == [q] + (path + [q] + after) && IsTrimmed(argument) && Trim(after) != ""
    ensures argument == [q] + path + [q] + gap + Trim(after) && IsBlank(gap)
  {
    var tail;
    gap, tail := TrimParts(after);
    Regroup(q, path, gap, Trim(after), tail);
    LastOfConcat([q] + path + [q] + gap + Trim(after), tail);
  }

  lemma {:induction false} QuotedLfs(argument: string) returns (gap: string)
    requires IsTrimmed(argument) && SplitQuoted(argument).Some?
    ensures var (path, operation) := SplitQuoted(argument).value;
            && argument == [argument[0]] + path + [argument[0]] + gap + operation
            && argument[0] !in path && IsBlank(gap)
  {
    var q, rest := argument[0], argument[1..];
    var end := FirstAt(rest, q);
    assert argument == [q] + rest && rest == rest[..end] + [q] + rest[end + 1..];
    gap := QuotedParts(argument, q, rest[..end], rest[end + 1..]);
  }

  lemma {:induction false} Regroup(q: char, path: string, gap: string, operation: string, tail: string)
    ensures [q] + (path + [q] + (gap + operation + tail)) == [q] + path + [q] + gap + operation + tail
    ensures tail == "" ==> [q] + path + [q] + gap + operation + tail == [q] + path + [q] + gap + operation
  {
  }

  lemma {:induction false} BareLfs(argument: string) returns (gap: string)
    requires IsTrimmed(argument) && SplitBare(argument).Some?
    ensures var (path, operation) := SplitBare(argument).value;
            argument == path + gap + operation && IsGap(gap) && Carries(Bare, path)
  {
    gap := GapBetween(argument);
    var path := Words(argument)[0];
    assert forall i | 0 <= i < |path| :: !IsWhitespace(path[i]);
  }

  lemma {:induction false} QuotingOfLfs(argument: string) returns (quoting: Quoting, gap: string)
    requires IsTrimmed(argument) && SplitLfsArguments(argument).Some?
    ensures var (path, operation) := SplitLfsArguments(argument).value;
            && argument == Enquote(quoting, path) + gap + operation
            && Carries(quoting, path) && IsBlank(gap) && (quoting.Bare? ==> gap != "")
  {
    TrimTrimmed(argument);
    if IsQuote(argument[0]) {
      quoting := Quoted(argument[0]);
      gap := QuotedLfs(argument);
    } else {
      quoting := Bare;
      gap := BareLfs(argument);
    }
  }

  lemma {:induction false} CoreOfPath(path: string) returns (slash: bool, suffix: bool, core: string)
    ensures core == StripSuffix(StripPrefix(path, '/'), ".git")
    ensures path == (if slash then "/" else "") + core + (if suffix then ".git" else "")
    ensures !suffix ==> !EndsWith(core, ".git")
  {
    slash := path != "" && path[0] == '/';
    var stripped := StripPrefix(path, '/');
    assert path == (if slash then "/" else "") + stripped;
    suffix := EndsWith(stripped, ".git");
    core := StripSuffix(stripped, ".git");
    assert stripped == core + (if suffix then ".git" else "");
  }

  lemma {:induction false} PartsOfCore(core: string)
    requires SplitCore(core).Some?
    ensures var (namespace, project) := SplitCore(core).value;
            && IsPart(namespace) && IsPart(project) && core == namespace + "/" + project
            && (EndsWith(project, ".git") ==> EndsWith(core, ".git"))
  {
  }

  lemma {:induction false} FlagsOfPath(path: string) returns (slash: bool, suffix: bool)
    requires ParseRepositoryPath(path).Some?
    ensures var (namespace, project) := ParseRepositoryPath(path).value;
            && IsPart(namespace) && IsPart(project)
            && path == SpellPath(Spelling(true, Bare, slash, suffix), namespace, project)
            && (!suffix ==> !EndsWith(project, ".git"))
  {
    var core;
    slash, suffix, core := CoreOfPath(path);
    PartsOfCore(core);
  }

  lemma {:induction false} PartsOfPath(sp: Spelling, namespace: string, project: string, c: char)
    ensures c in namespace || c in project ==> c in SpellPath(sp, namespace, project)
  {
  }

  lemma {:induction false} PartsAreCarried(quoting: Quoting, path: string, part: string)
    requires Carries(quoting, path) && forall c | c in part :: c in path
    ensures Carries(quoting, part)
  {
    forall i | 0 <= i < |part|
      ensures part[i] in path
    {
    }
  }

  lemma {:induction false} ActionOfName(name: string, argument: string)
    requires ActionAndPath(name, argument).Some?
    ensures name == "git-" + Subcommand(ActionAndPath(name, argument).value.0)
  {
    match ActionAndPath(name, argument).value.0
    case Git(service) => WireName(service);
    case Lfs(canWrite) => LfsName(canWrite);
  }

  lemma {:induction false} ArgumentOfAction(name: string, argument: string) returns (quoting: Quoting, gap: string)
    requires IsTrimmed(argument) && ActionAndPath(name, argument).Some?
    ensures var (action, path) := ActionAndPath(name, argument).value;
            && Carries(quoting, path)
            && argument == (match action
                            case Git(_) => Enquote(quoting, path)
                            case Lfs(canWrite) => Enquote(quoting, path) + gap + Operation(canWrite))
            && (action.Lfs? ==> IsBlank(gap) && (quoting.Bare? ==> gap != ""))
  {
    if name == LFS_AUTHENTICATE {
      quoting, gap := QuotingOfLfs(argument);
    } else {
      quoting := QuotingOfArgument(argument);
      gap := "";
    }
  }

  lemma {:induction false} EmptyArgumentRefused(name: string)
    requires ActionAndPath(name, "").Some?
    ensures ParseRepositoryPath(ActionAndPath(name, "").value.1).None?
  {
  }

  /** Whatever is accepted is a spelling of the command it is accepted as. */
  lemma {:induction false} AcceptedIsSpelled(raw: string) returns (sp: Spelling, g: Spacing)
    requires ParseCommand(raw).Some?
    ensures Spellable(sp, g, ParseCommand(raw).value) && raw == Spell(sp, g, ParseCommand(raw).value)
  {
    var c := ParseCommand(raw).value;
    var (wire, argument) := SplitName(raw).value;
    var path := ActionAndPath(wire, argument).value.1;
    if argument == "" {
      EmptyArgumentRefused(wire);
    }
    var dashed, spacing, name := NameOfSplit(raw);
    ActionOfName(wire, argument);
    var quoting, gap := ArgumentOfAction(wire, argument);
    var slash, suffix := FlagsOfPath(path);
    forall k | k in c.namespace || k in c.project
      ensures k in path
    {
      PartsOfPath(Spelling(true, Bare, slash, suffix), c.namespace, c.project, k);
    }
    PartsAreCarried(quoting, path, c.namespace);
    PartsAreCarried(quoting, path, c.project);
    sp := Spelling(dashed, quoting, slash, suffix);
    g := spacing.(beforeOperation := gap);
    SameAfterPrefix("git-", name, Subcommand(c.action));
  }

  lemma {:induction false} SameAfterPrefix(prefix: string, a: string, b: string)
    ensures prefix + a == prefix + b ==> a == b
  {
    assert (prefix + a)[|prefix|..] == a && (prefix + b)[|prefix|..] == b;
  }

  /**
   The parser accepts exactly the spellings: a raw string is accepted as a command if and only if it
   spells that command.
   */
  lemma {:induction false} AcceptedExactlySpellings(raw: string, c: Command)
    ensures ParseCommand(raw) == Some(c) <==> exists sp, g :: Spellable(sp, g, c) && raw == Spell(sp, g, c)
  {
    if ParseCommand(raw) == Some(c) {
      var sp, g := AcceptedIsSpelled(raw);
    }
    forall sp, g | Spellable(sp, g, c) && raw == Spell(sp, g, c)
      ensures ParseCommand(raw) == Some(c)
    {
      EverySpellingParses(sp, g, c);
    }
  }

  /** The dashed, quoted form with `.git` and single spaces, in single quotes unless a name contains one. */
  function Canonical(c: Command): string {
    var quote := if '\'' in c.namespace || '\'' in c.project then '"' else '\'';
    Spell(Spelling(true, Quoted(quote), false, true), Spacing("", "", " ", " ", ""), c)
  }

  /** Whatever was accepted, its canonical spelling parses to the same command, whose names are proper parts. */
  lemma {:induction false} CanonicalReparses(raw: string)
    requires ParseCommand(raw).Some?
    ensures var c := ParseCommand(raw).value;
            IsPart(c.namespace) && IsPart(c.project) && ParseCommand(Canonical(c)) == Some(c)
  {
    var c := ParseCommand(raw).value;
    var sp, g := AcceptedIsSpelled(raw);
    var quote := if '\'' in c.namespace || '\'' in c.project then '"' else '\'';
    SomeQuoteCarries(sp.quoting, c.namespace, c.project);
    EverySpellingParses(Spelling(true, Quoted(quote), false, true), Spacing("", "", " ", " ", ""), c);
  }

  lemma {:induction false} SomeQuoteCarries(quoting: Quoting, a: string, b: string)
    requires Carries(quoting, a) && Carries(quoting, b)
    ensures var quote := if '\'' in a || '\'' in b then '"' else '\'';
            Carries(Quoted(quote), a) && Carries(Quoted(quote), b)
  {
  }
}
