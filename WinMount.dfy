/** A model of WinMount's decision logic (WinMount.cpp, WinMount.h): reading the command
    line into settings, validating the lines of the mount configuration file, the
    error-message table, and the retry policy of MapDrives. The operating system's
    connection calls are an oracle: a sequence of result codes consumed in call order. */
module WinMount {
  import opened StringUtils
  import opened CmdArguments

  // ---------------------------------------------------------------------------
  // Win32 constants the program uses
  // ---------------------------------------------------------------------------

  const NO_ERROR: Int32 := 0
  const ERROR_SUCCESS: Int32 := 0
  const ERROR_PATH_NOT_FOUND: Int32 := 3
  const ERROR_ACCESS_DENIED: Int32 := 5
  const ERROR_UNEXP_NET_ERR: Int32 := 59
  const ERROR_NETNAME_DELETED: Int32 := 64
  const ERROR_NETWORK_ACCESS_DENIED: Int32 := 65
  const ERROR_BAD_DEV_TYPE: Int32 := 66
  const ERROR_BAD_NET_NAME: Int32 := 67
  const ERROR_ALREADY_ASSIGNED: Int32 := 85
  const ERROR_INVALID_PASSWORD: Int32 := 86
  const ERROR_BUSY: Int32 := 170
  const ERROR_DEVICE_ALREADY_REMEMBERED: Int32 := 1202
  const ERROR_NO_NET_OR_BAD_PATH: Int32 := 1203
  const ERROR_SESSION_CREDENTIAL_CONFLICT: Int32 := 1219
  const ERROR_NO_NETWORK: Int32 := 1222
  const ERROR_CANCELLED: Int32 := 1223
  const ERROR_NETWORK_UNREACHABLE: Int32 := 1231
  const ERROR_PORT_UNREACHABLE: Int32 := 1234
  const ERROR_LOGON_FAILURE: Int32 := 1326
  const ERROR_CANT_ACCESS_DOMAIN_INFO: Int32 := 1351
  const ERROR_NOT_CONNECTED: Int32 := 2250

  /** The connect flags the program sets. The DWORD m_dwConnectFlags is modelled as the
      set of flags it holds: `|=` is union and a test `& FLAG` is membership. */
  datatype ConnectFlag = CONNECT_UPDATE_PROFILE | CONNECT_INTERACTIVE

  /** The bit each flag stands for in the word handed to the operating system. */
  function FlagBit(flag: ConnectFlag): (bit: bv32)
    ensures bit != 0
  {
    match flag
    case CONNECT_UPDATE_PROFILE => 0x1
    case CONNECT_INTERACTIVE => 0x8
  }

  /** The word m_dwConnectFlags holds for a set of flags: the OR of their bits. */
  function FlagWord(flags: set<ConnectFlag>): bv32 {
    (if CONNECT_UPDATE_PROFILE in flags then FlagBit(CONNECT_UPDATE_PROFILE) else 0) |
    (if CONNECT_INTERACTIVE in flags then FlagBit(CONNECT_INTERACTIVE) else 0)
  }

  /** The two bits share nothing, so the set stands for the word: no flags is 0, `|=`
      with a flag's bit adds the flag, and `& FLAG` is non-zero exactly for a member. */
  lemma {:induction false} FlagWordOps(flags: set<ConnectFlag>, flag: ConnectFlag)
    ensures FlagBit(CONNECT_UPDATE_PROFILE) & FlagBit(CONNECT_INTERACTIVE) == 0
    ensures FlagWord({}) == 0
    ensures FlagWord(flags + {flag}) == FlagWord(flags) | FlagBit(flag)
    ensures FlagWord(flags) & FlagBit(flag) != 0 <==> flag in flags
  {
    var up := CONNECT_UPDATE_PROFILE in flags;
    var ia := CONNECT_INTERACTIVE in flags;
    if flag == CONNECT_UPDATE_PROFILE {
      assert (CONNECT_INTERACTIVE in flags + {flag}) == ia;
    } else {
      assert (CONNECT_UPDATE_PROFILE in flags + {flag}) == up;
    }
  }

  const MAX_PATH: nat := 260
  const RETRY_COUNT: nat := 10

  // ---------------------------------------------------------------------------
  // ShowError: the message table
  // ---------------------------------------------------------------------------

  /** The codes with a message of their own, besides 0. */
  predicate Listed(code: Int32) {
    code == ERROR_PATH_NOT_FOUND || code == ERROR_ACCESS_DENIED || code == ERROR_UNEXP_NET_ERR ||
    code == ERROR_NETNAME_DELETED || code == ERROR_NETWORK_ACCESS_DENIED || code == ERROR_BAD_DEV_TYPE ||
    code == ERROR_BAD_NET_NAME || code == ERROR_ALREADY_ASSIGNED || code == ERROR_INVALID_PASSWORD ||
    code == ERROR_BUSY || code == ERROR_DEVICE_ALREADY_REMEMBERED || code == ERROR_NO_NET_OR_BAD_PATH ||
    code == ERROR_SESSION_CREDENTIAL_CONFLICT || code == ERROR_NO_NETWORK || code == ERROR_CANCELLED ||
    code == ERROR_NETWORK_UNREACHABLE || code == ERROR_PORT_UNREACHABLE || code == ERROR_LOGON_FAILURE ||
    code == ERROR_CANT_ACCESS_DOMAIN_INFO || code == ERROR_NOT_CONNECTED
  }

  predicate EndsWith(s: string, suffix: string) {
    |suffix| <= |s| && s[|s| - |suffix|..] == suffix
  }

  lemma EndsWithAppend<T>(s: seq<T>, suffix: seq<T>)
    ensures |suffix| <= |s + suffix| && (s + suffix)[|s + suffix| - |suffix|..] == suffix
  {
  }

  /** The text before the parenthesised code: a fixed description for a listed code,
      "Unknown error" for any other. */
  function Description(error_code: Int32): string {
    if error_code == ERROR_PATH_NOT_FOUND then "Path not found"
    else if error_code == ERROR_ACCESS_DENIED then "Access denied"
    else if error_code == ERROR_UNEXP_NET_ERR then "Unexpected network error"
    else if error_code == ERROR_NETNAME_DELETED then "The specified network name is no longer available"
    else if error_code == ERROR_NETWORK_ACCESS_DENIED then "Network access is denied"
    else if error_code == ERROR_BAD_DEV_TYPE then "Incorrect network resource"
    else if error_code == ERROR_BAD_NET_NAME then "Bad network name"
    else if error_code == ERROR_ALREADY_ASSIGNED then "Drive already assigned"
    else if error_code == ERROR_INVALID_PASSWORD then "The specified network password is not correct"
    else if error_code == ERROR_BUSY then "The requested resource is busy"
    else if error_code == ERROR_DEVICE_ALREADY_REMEMBERED then "Local device already in use"
    else if error_code == ERROR_NO_NET_OR_BAD_PATH then "Network path not found or not available"
    else if error_code == ERROR_SESSION_CREDENTIAL_CONFLICT then "Credential conflict"
    else if error_code == ERROR_NO_NETWORK then "The network is not present or not started"
    else if error_code == ERROR_CANCELLED then "User cancelled"
    else if error_code == ERROR_NETWORK_UNREACHABLE then "Network unreachable"
    else if error_code == ERROR_PORT_UNREACHABLE then "Destination port unreachable"
    else if error_code == ERROR_LOGON_FAILURE then "Bad user name or password"
    else if error_code == ERROR_CANT_ACCESS_DOMAIN_INFO then "Cannot access domain info"
    else if error_code == ERROR_NOT_CONNECTED then "Network connection does not exist"
    else "Unknown error"
  }

  /** The text for a Win32 error code: "OK" for success; otherwise the description
      followed by the code in parentheses, as in "Path not found (3)". */
  function ShowError(error_code: Int32): (r: string)
    ensures r == "OK" <==> error_code == ERROR_SUCCESS
    ensures error_code != ERROR_SUCCESS ==> EndsWith(r, "(" + Int32ToString(error_code) + ")")
    ensures error_code != ERROR_SUCCESS && !Listed(error_code) ==>
              r == "Unknown error (" + Int32ToString(error_code) + ")"
  {
    var code := "(" + Int32ToString(error_code) + ")";
    if error_code == ERROR_SUCCESS then "OK"
    else
      EndsWithAppend(Description(error_code) + " ", code);
      Description(error_code) + " " + code
  }

  // ---------------------------------------------------------------------------
  // CNetShare: one configured share
  // ---------------------------------------------------------------------------

  /** A drive letter and the remote path mapped to it, with a flag that MapDrives sets
      once it no longer needs to try the share. The names never change. */
  class NetShare {
    const localName: string
    const remoteName: string
    var mapped: bool

    /** A new share is unmapped. */
    constructor (strLocal: string, strRemote: string)
      ensures localName == strLocal && remoteName == strRemote && !mapped
    {
      localName := strLocal;
      remoteName := strRemote;
      mapped := false;
    }

    function IsMapped(): (b: bool)
      reads this
      ensures b == mapped
    {
      mapped
    }

    /** Sets the flag to bMapped (true by default); nothing else changes. */
    method SetMapped(bMapped: bool := true)
      modifies this
      ensures mapped == bMapped
    {
      mapped := bMapped;
    }

    function GetLocalName(): (s: string)
      ensures s == localName
    {
      localName
    }

    function GetRemoteName(): (s: string)
      ensures s == remoteName
    {
      remoteName
    }
  }

  // ---------------------------------------------------------------------------
  // The command line
  // ---------------------------------------------------------------------------

  /** The fields of CWinMount that the command line sets. */
  datatype Settings = Settings(unmount: bool, retryForever: bool, connectFlags: set<ConnectFlag>, iniFile: string)

  /** The characters trimmed off the configuration path: double and single quotes. */
  const QuoteChars: string := "\"'"

  /** One settings record carries everything another one does: flag bits, unmount and
      retry are only ever switched on, and a non-empty path is kept. */
  predicate Extends(s: Settings, t: Settings) {
    s.connectFlags <= t.connectFlags &&
    (s.unmount ==> t.unmount) && (s.retryForever ==> t.retryForever) &&
    (s.iniFile != [] ==> t.iniFile == s.iniFile)
  }

  /** The option an option name selects, tried in the program's order. */
  datatype OptionKind = Help | Persist | Interactive | Unmount | Retry | UnknownOption

  function OptionKindOf(name: string): OptionKind {
    if MatchesOption(name, "help", "h") then Help
    else if MatchesOption(name, "persist", "p") then Persist
    else if MatchesOption(name, "interactive", "i") then Interactive
    else if MatchesOption(name, "unmount", "u") then Unmount
    else if MatchesOption(name, "retry", "r") then Retry
    else UnknownOption
  }

  /** A two-character name can only be a short spelling: it matches when it is '-' or
      '/' followed by the one-letter short name. */
  lemma {:induction false} ShortNameMatches(name: string, strLong: string, strShort: string)
    requires |name| == 2 && |strLong| > 1
    ensures MatchesOption(name, strLong, strShort) <==>
              |strShort| == 1 && (name[0] == '-' || name[0] == '/') && name[1] == strShort[0]
  {
    if |strShort| == 1 && (name[0] == '-' || name[0] == '/') && name[1] == strShort[0] {
      assert name == [name[0]] + strShort;
    }
  }

  /** Each option is selected by "+long", "--long", "-short" and "/short". */
  lemma {:induction false} HelpSpellings()
    ensures OptionKindOf("--help") == Help && OptionKindOf("+help") == Help
    ensures OptionKindOf("-h") == Help && OptionKindOf("/h") == Help
  {
    assert "--help" == "--" + "help" && "+help" == "+" + "help";
    ShortNameMatches("-h", "help", "h");
    ShortNameMatches("/h", "help", "h");
  }

  lemma {:induction false} PersistSpellings()
    ensures OptionKindOf("--persist") == Persist && OptionKindOf("-p") == Persist
  {
    assert "--persist" == "--" + "persist";
    ShortNameMatches("-p", "help", "h");
    ShortNameMatches("-p", "persist", "p");
  }

  lemma {:induction false} InteractiveSpellings()
    ensures OptionKindOf("--interactive") == Interactive && OptionKindOf("/i") == Interactive
  {
    assert "--interactive" == "--" + "interactive";
    ShortNameMatches("/i", "help", "h");
    ShortNameMatches("/i", "persist", "p");
    ShortNameMatches("/i", "interactive", "i");
  }

  lemma {:induction false} UnmountSpellings()
    ensures OptionKindOf("+unmount") == Unmount && OptionKindOf("-u") == Unmount
  {
    assert "+unmount" == "+" + "unmount";
    assert "+unmount" != "+" + "persist" by {
      assert "+unmount"[1] != ("+" + "persist")[1];
    }
    ShortNameMatches("-u", "help", "h");
    ShortNameMatches("-u", "persist", "p");
    ShortNameMatches("-u", "interactive", "i");
    ShortNameMatches("-u", "unmount", "u");
  }

  lemma {:induction false} RetrySpellings()
    ensures OptionKindOf("--retry") == Retry && OptionKindOf("/r") == Retry
  {
    assert "--retry" == "--" + "retry";
    ShortNameMatches("/r", "help", "h");
    ShortNameMatches("/r", "persist", "p");
    ShortNameMatches("/r", "interactive", "i");
    ShortNameMatches("/r", "unmount", "u");
    ShortNameMatches("/r", "retry", "r");
  }

  /** A long name needs "+" or "--", a short one "-" or "/", and a bare word is no
      option: "-help", "--h" and "retry" are unknown. */
  lemma {:induction false} OptionPrefixRules()
    ensures OptionKindOf("-help") == UnknownOption
    ensures OptionKindOf("--h") == UnknownOption
    ensures OptionKindOf("retry") == UnknownOption
  {
    assert "-help" != "+" + "help" by {
      assert "-help"[0] != ("+" + "help")[0];
    }
    MatchesOptionSpellings("retry", "help", "h");
    MatchesOptionSpellings("retry", "persist", "p");
    MatchesOptionSpellings("retry", "interactive", "i");
    MatchesOptionSpellings("retry", "unmount", "u");
    MatchesOptionSpellings("retry", "retry", "r");
  }

  /** Names are case-sensitive: "-P" is unknown. */
  lemma {:induction false} OptionCaseSensitive()
    ensures OptionKindOf("-P") == UnknownOption
  {
    ShortNameMatches("-P", "help", "h");
    ShortNameMatches("-P", "persist", "p");
    ShortNameMatches("-P", "interactive", "i");
    ShortNameMatches("-P", "unmount", "u");
    ShortNameMatches("-P", "retry", "r");
  }

  /** When an argument stops the command line: help, an unknown option, a known option
      given a value, or a positional argument once the path is non-empty. */
  predicate Rejects(s: Settings, arg: string) {
    if IsOption(arg) then
      var kind := OptionKindOf(OptionNameOf(arg));
      kind == Help || kind == UnknownOption || OptionValueOf(arg) != []
    else
      s.iniFile != []
  }

  datatype Verdict = Accept(settings: Settings) | Reject

  /** What an option does to the settings: help and unknown options are rejected, as is
      a known option given a value; the others switch on their own setting and leave
      the rest alone. */
  function ApplyOption(s: Settings, kind: OptionKind, hasValue: bool): (v: Verdict)
    ensures v.Reject? <==> kind == Help || kind == UnknownOption || hasValue
    ensures v.Accept? ==> Extends(s, v.settings) && v.settings.iniFile == s.iniFile
    ensures v.Accept? && kind == Persist ==> v.settings == s.(connectFlags := s.connectFlags + {CONNECT_UPDATE_PROFILE})
    ensures v.Accept? && kind == Interactive ==> v.settings == s.(connectFlags := s.connectFlags + {CONNECT_INTERACTIVE})
    ensures v.Accept? && kind == Unmount ==> v.settings == s.(unmount := true)
    ensures v.Accept? && kind == Retry ==> v.settings == s.(retryForever := true)
  {
    match kind
    case Help => Reject
    case Persist => if hasValue then Reject else Accept(s.(connectFlags := s.connectFlags + {CONNECT_UPDATE_PROFILE}))
    case Interactive => if hasValue then Reject else Accept(s.(connectFlags := s.connectFlags + {CONNECT_INTERACTIVE}))
    case Unmount => if hasValue then Reject else Accept(s.(unmount := true))
    case Retry => if hasValue then Reject else Accept(s.(retryForever := true))
    case UnknownOption => Reject
  }

  /** What one argument does to the settings: an option acts through ApplyOption; the
      first positional argument becomes the path, trimmed of quotes, and a positional
      argument once the path is non-empty is rejected. */
  function ApplyArgument(s: Settings, arg: string): (v: Verdict)
    ensures v.Reject? <==> Rejects(s, arg)
    ensures v.Accept? ==> Extends(s, v.settings)
    ensures v.Accept? && !IsOption(arg) ==> v.settings == s.(iniFile := Trim(arg, QuoteChars))
  {
    if IsOption(arg) then ApplyOption(s, OptionKindOf(OptionNameOf(arg)), OptionValueOf(arg) != [])
    else if s.iniFile == [] then Accept(s.(iniFile := Trim(arg, QuoteChars)))
    else Reject
  }

  /** The arguments from i on, applied in order until one is rejected: whether all
      were accepted, and the settings reached. */
  function CommandLine(s: Settings, args: seq<string>, i: nat): (bool, Settings)
    requires i <= |args|
    decreases |args| - i
  {
    if i == |args| then (true, s)
    else
      var v := ApplyArgument(s, args[i]);
      if v.Reject? then (false, s) else CommandLine(v.settings, args, i + 1)
  }

  /** The command line only ever adds to the settings: see Extends. */
  lemma {:induction false} CommandLineExtends(s: Settings, args: seq<string>, i: nat)
    requires i <= |args|
    ensures Extends(s, CommandLine(s, args, i).1)
    decreases |args| - i
  {
    if i < |args| {
      var v := ApplyArgument(s, args[i]);
      if v.Accept? {
        CommandLineExtends(v.settings, args, i + 1);
      }
    }
  }

  /** The settings after the first k arguments, each applied when accepted. */
  function Replay(s: Settings, args: seq<string>, k: nat): Settings
    requires k <= |args|
  {
    if k == 0 then s
    else
      var p := Replay(s, args, k - 1);
      var v := ApplyArgument(p, args[k - 1]);
      if v.Accept? then v.settings else p
  }

  /** Argument k is accepted in the settings the arguments before it produce. */
  predicate AcceptedAt(s: Settings, args: seq<string>, k: nat)
    requires k < |args|
  {
    !Rejects(Replay(s, args, k), args[k])
  }

  predicate AllAcceptedFrom(s: Settings, args: seq<string>, i: nat) {
    forall k :: i <= k < |args| ==> AcceptedAt(s, args, k)
  }

  /** The command line is accepted exactly when no argument is rejected in the
      settings that the arguments before it produce. */
  lemma {:induction false} CommandLineAccepts(s: Settings, args: seq<string>)
    ensures CommandLine(s, args, 0).0 <==> AllAcceptedFrom(s, args, 0)
  {
    CommandLineAcceptsFrom(s, args, 0);
  }

  lemma {:induction false} CommandLineAcceptsFrom(s: Settings, args: seq<string>, i: nat)
    requires i <= |args|
    ensures CommandLine(Replay(s, args, i), args, i).0 <==> AllAcceptedFrom(s, args, i)
    decreases |args| - i
  {
    if i < |args| {
      AllAcceptedStep(s, args, i);
      var p := Replay(s, args, i);
      var v := ApplyArgument(p, args[i]);
      if v.Reject? {
        assert CommandLine(p, args, i) == (false, p);
      } else {
        assert Replay(s, args, i + 1) == v.settings;
        assert CommandLine(p, args, i) == CommandLine(v.settings, args, i + 1);
        CommandLineAcceptsFrom(s, args, i + 1);
      }
    }
  }

  lemma AllAcceptedStep(s: Settings, args: seq<string>, i: nat)
    requires i < |args|
    ensures AllAcceptedFrom(s, args, i) <==> AcceptedAt(s, args, i) && AllAcceptedFrom(s, args, i + 1)
  {
  }

  lemma {:induction false} OptionArgument(s: Settings, arg: string)
    requires IsOption(arg)
    ensures ApplyArgument(s, arg) == ApplyOption(s, OptionKindOf(OptionNameOf(arg)), OptionValueOf(arg) != [])
  {
  }

  /** A rejected argument ends the command line with the settings reached so far. */
  lemma {:induction false} CommandLineRejectStep(args: seq<string>, i: nat, s: Settings)
    requires i < |args| && ApplyArgument(s, args[i]).Reject?
    ensures CommandLine(s, args, i) == (false, s)
  {
  }

  /** An accepted argument moves the command line on to the next one. */
  lemma {:induction false} CommandLineAcceptStep(args: seq<string>, i: nat, s: Settings, t: Settings)
    requires i < |args| && ApplyArgument(s, args[i]) == Accept(t)
    ensures CommandLine(s, args, i) == CommandLine(t, args, i + 1)
  {
  }

  // ---------------------------------------------------------------------------
  // The configuration file
  // ---------------------------------------------------------------------------

  /** The path read when the command line names none. */
  const DefaultIniFile: string := "\\mount.ini"

  /** Empty lines and comment lines starting with ';' are not read. */
  predicate IsSkipped(line: string) {
    line == [] || line[0] == ';'
  }

  /** A UNC path: at least three characters, at most MAX_PATH, starting with two
      backslashes. */
  predicate ValidRemote(remote: string) {
    3 <= |remote| <= MAX_PATH && remote[..2] == "\\\\"
  }

  /** A share line: a drive letter (any character but a space) and ':', one space, and
      a valid remote path, which may contain further spaces. */
  predicate IsShareLine(line: string) {
    |line| > 3 && line[0] != ' ' && line[1] == ':' && line[2] == ' ' && ValidRemote(line[3..])
  }

  datatype ShareText = ShareText(local: string, remote: string)

  /** A line split at its first space into a local and a remote name, accepted when the
      local name is two characters ending in ':' and the remote name is a valid path. */
  function ParseShareLine(line: string): (r: Option<ShareText>)
    ensures r.Some? <==> IsShareLine(line)
    ensures r.Some? ==> r.value == ShareText(line[..2], line[3..])
  {
    var split := Split(line, " ", "", "");
    ShareLineSplit(line);
    if !split.0 || |split.1| != 2 || split.1[1] != ':' || |split.2| < 3 || split.2[..2] != "\\\\" ||
       |split.2| > MAX_PATH
    then None
    else Some(ShareText(split.1, split.2))
  }

  /** Where the first space of a line lies, told by the line's first three characters. */
  lemma {:induction false} ShareLineSplit(line: string)
    ensures var split := Split(line, " ", "", "");
            (split.0 && |split.1| == 2 <==> |line| > 2 && line[0] != ' ' && line[1] != ' ' && line[2] == ' ') &&
            (split.0 && |split.1| == 2 ==> split.1 == line[..2] && split.2 == line[3..])
  {
    var split := Split(line, " ", "", "");
    if |line| > 2 && line[0] != ' ' && line[1] != ' ' && line[2] == ' ' {
      assert OccursAt(line, " ", 2);
      assert !OccursAt(line, " ", 0) && !OccursAt(line, " ", 1);
      assert split.0;
      assert |split.1| <= 2;
    }
    if split.0 && |split.1| == 2 {
      assert OccursAt(line, " ", 2);
      assert line[2] == ' ';
      assert !OccursAt(line, " ", 0) && !OccursAt(line, " ", 1);
    }
  }

  predicate LineOk(line: string) {
    IsSkipped(line) || IsShareLine(line)
  }

  /** The index of the first line that is neither skipped nor a share line, at or after
      from; |lines| when there is none. */
  function FirstBad(lines: seq<string>, from: nat): (i: nat)
    requires from <= |lines|
    ensures from <= i <= |lines|
    ensures forall k :: from <= k < i ==> LineOk(lines[k])
    ensures i < |lines| ==> !LineOk(lines[i])
    decreases |lines| - from
  {
    if from == |lines| || !LineOk(lines[from]) then from else FirstBad(lines, from + 1)
  }

  /** The shares the share lines describe, in file order. Each has a drive name of two
      characters ending in ':' and a valid remote path. */
  function SharesOf(lines: seq<string>): (r: seq<ShareText>)
    ensures |r| <= |lines|
    ensures forall k :: 0 <= k < |r| ==> |r[k].local| == 2 && r[k].local[1] == ':' && ValidRemote(r[k].remote)
    decreases |lines|
  {
    if lines == [] then []
    else
      var last := lines[|lines| - 1];
      SharesOf(lines[..|lines| - 1]) +
      (if !IsSkipped(last) && IsShareLine(last) then [ShareText(last[..2], last[3..])] else [])
  }

  /** The shares of a file are those of its parts, in order. */
  lemma {:induction false} SharesOfAppend(a: seq<string>, b: seq<string>)
    ensures SharesOf(a + b) == SharesOf(a) + SharesOf(b)
    decreases |b|
  {
    if b == [] {
      AppendNil(a);
      AppendNil(SharesOf(a));
    } else {
      var b' := b[..|b| - 1];
      assert (a + b)[..|a + b| - 1] == a + b';
      SharesOfAppend(a, b');
      AppendAssoc(SharesOf(a), SharesOf(b'), SharesOf([b[|b| - 1]]) );
      assert SharesOf([b[|b| - 1]]) == SharesOf([]) + SharesOf([b[|b| - 1]]);
    }
  }

  /** A single line gives its share when it is a share line that is not skipped, and
      nothing otherwise. */
  lemma {:induction false} SharesOfLine(line: string)
    ensures IsShareLine(line) && !IsSkipped(line) ==> SharesOf([line]) == [ShareText(line[..2], line[3..])]
    ensures !IsShareLine(line) || IsSkipped(line) ==> SharesOf([line]) == []
  {
    assert [line][..0] == [];
  }

  /** The names of a sequence of shares. */
  function Texts(shares: seq<NetShare>): (r: seq<ShareText>)
    ensures |r| == |shares|
  {
    seq(|shares|, j requires 0 <= j < |shares| => ShareText(shares[j].localName, shares[j].remoteName))
  }

  lemma TextsAppend(a: seq<NetShare>, b: seq<NetShare>)
    ensures Texts(a + b) == Texts(a) + Texts(b)
  {
  }

  /** One more line read: the shares it adds extend those of the lines before it. */
  lemma {:induction false} TextsStep(created: seq<NetShare>, added: seq<NetShare>, lines: seq<string>, i: nat)
    requires i < |lines|
    requires Texts(created) == SharesOf(lines[..i])
    requires Texts(added) == SharesOf([lines[i]])
    ensures Texts(created + added) == SharesOf(lines[..i + 1])
  {
    TextsAppend(created, added);
    assert lines[..i + 1] == lines[..i] + [lines[i]];
    SharesOfAppend(lines[..i], [lines[i]]);
  }

  /** One more line read: the first bad line is this one, or still ahead. */
  lemma {:induction false} FirstBadStep(lines: seq<string>, i: nat)
    requires i < |lines|
    ensures LineOk(lines[i]) ==> FirstBad(lines, i) == FirstBad(lines, i + 1)
    ensures !LineOk(lines[i]) ==> FirstBad(lines, i) == i
  {
  }

  /** No object occurs twice. */
  ghost predicate Distinct(shares: seq<NetShare>) {
    forall i, j :: 0 <= i < j < |shares| ==> shares[i] != shares[j]
  }

  lemma {:induction false} DistinctAppend(shares: seq<NetShare>, share: NetShare)
    requires Distinct(shares) && share !in shares
    ensures Distinct(shares + [share])
  {
  }

  // ---------------------------------------------------------------------------
  // MapDrives: the connect and retry policy
  //
  // The results of WNetCancelConnection2 and WNetAddConnection2 come from the
  // operating system; they are modelled as a finite sequence that the calls consume
  // in order, each call taking the next result. A run that needs a result past the
  // end stops with OutOfResults.
  // ---------------------------------------------------------------------------

  /** The switches MapDrives reads. markInteractiveSuccess is false in the program as
      written: a successful interactive connection does not flag its share. */
  datatype Policy = Policy(unmount: bool, interactive: bool, retryForever: bool, markInteractiveSuccess: bool)

  /** How MapDrives ends: every share flagged, RETRY_COUNT rounds without that, the
      user cancelling an interactive prompt, or (in the model only) no result left. */
  datatype Outcome = Mapped | RoundsExhausted | Cancelled | OutOfResults

  /** What the result of the silent (non-interactive) attempt means. */
  datatype SilentVerdict = MarkMapped | Fatal | NoFallback | Fallback

  function SilentVerdictOf(result: Int32): SilentVerdict {
    if result == ERROR_CANCELLED || result == NO_ERROR || result == ERROR_ALREADY_ASSIGNED then MarkMapped
    else if result == ERROR_DEVICE_ALREADY_REMEMBERED || result == ERROR_SESSION_CREDENTIAL_CONFLICT ||
            result == ERROR_ALREADY_ASSIGNED then Fatal
    else if result != ERROR_LOGON_FAILURE && result != ERROR_BAD_DEV_TYPE then Fallback
    else NoFallback
  }

  /** The silent verdicts: a share is flagged on success, cancel and "already
      assigned", and on the two fatal errors; logon failure and a bad device type give
      up for this round; every other error falls back to an interactive attempt. The
      second test of ERROR_ALREADY_ASSIGNED is never reached. */
  lemma {:induction false} SilentVerdicts(result: Int32)
    ensures SilentVerdictOf(result) == MarkMapped <==>
              result == NO_ERROR || result == ERROR_CANCELLED || result == ERROR_ALREADY_ASSIGNED
    ensures SilentVerdictOf(result) == Fatal <==>
              result == ERROR_DEVICE_ALREADY_REMEMBERED || result == ERROR_SESSION_CREDENTIAL_CONFLICT
    ensures SilentVerdictOf(result) == NoFallback <==>
              result == ERROR_LOGON_FAILURE || result == ERROR_BAD_DEV_TYPE
  {
  }

  /** The interactive attempt retries only on the two network errors. */
  predicate IsNetworkRetry(result: Int32) {
    result == ERROR_NETWORK_UNREACHABLE || result == ERROR_NO_NET_OR_BAD_PATH
  }

  /** The position of the result that ends the interactive do-while loop begun at
      from: the first that is not a network error; |results| when there is none. */
  function InteractiveEnd(results: seq<Int32>, from: nat): (k: nat)
    requires from <= |results|
    ensures from <= k <= |results|
    ensures forall j :: from <= j < k ==> IsNetworkRetry(results[j])
    ensures k < |results| ==> !IsNetworkRetry(results[k])
    decreases |results| - from
  {
    if from == |results| || !IsNetworkRetry(results[from]) then from else InteractiveEnd(results, from + 1)
  }

  /** One share's attempt: flag it or not and continue after position next, stop the
      run on a cancelled prompt, or run out of results. */
  datatype Attempt = Done(mark: bool, next: nat) | Cancel | NoResult

  /** The interactive attempt starting at position n. */
  function InteractiveAttempt(pol: Policy, results: seq<Int32>, n: nat): (a: Attempt)
    requires n <= |results|
    ensures a.Done? ==> n < a.next <= |results|
  {
    var k := InteractiveEnd(results, n);
    if k == |results| then NoResult
    else if results[k] == ERROR_CANCELLED then Cancel
    else Done(pol.markInteractiveSuccess && results[k] == NO_ERROR, k + 1)
  }

  /** The body of the share loop for an unflagged share whose calls start at position
      next: the optional unmount, the silent attempt unless interactive mode is on,
      and the interactive attempt when it is on or the silent verdict falls back. */
  function AttemptShare(pol: Policy, results: seq<Int32>, next: nat): (a: Attempt)
    requires next <= |results|
    ensures a.Done? ==> next < a.next <= |results|
  {
    if pol.unmount && next == |results| then NoResult
    else if pol.unmount && results[next] != NO_ERROR && results[next] != ERROR_NOT_CONNECTED then Done(true, next + 1)
    else
      var n := if pol.unmount then next + 1 else next;
      if pol.interactive then InteractiveAttempt(pol, results, n)
      else if n == |results| then NoResult
      else
        var verdict := SilentVerdictOf(results[n]);
        if verdict == MarkMapped || verdict == Fatal then Done(true, n + 1)
        else if verdict == NoFallback then Done(false, n + 1)
        else InteractiveAttempt(pol, results, n + 1)
  }

  /** The flags of the shares, in order, and the position of the next result. */
  datatype State = State(flags: seq<bool>, next: nat)

  predicate AllMapped(flags: seq<bool>) {
    forall j :: 0 <= j < |flags| ==> flags[j]
  }

  /** How a pass over the shares ends: with the state after the last share, or
      stopped early with the run's outcome and the state at that point. */
  datatype RoundEnd = Finished(st: State) | Stopped(outcome: Outcome, st: State)

  /** One pass of the share loop from share i on: flagged shares are passed over and
      the others attempted in order; a cancel or the end of the results stops the run. */
  function Round(pol: Policy, results: seq<Int32>, st: State, i: nat): (r: RoundEnd)
    requires i <= |st.flags| && st.next <= |results|
    ensures |r.st.flags| == |st.flags| && st.next <= r.st.next <= |results|
    ensures r.Stopped? ==> r.outcome == Cancelled || r.outcome == OutOfResults
    decreases |st.flags| - i
  {
    if i == |st.flags| then Finished(st)
    else if st.flags[i] then Round(pol, results, st, i + 1)
    else
      var a := AttemptShare(pol, results, st.next);
      if a.NoResult? then Stopped(OutOfResults, st)
      else if a.Cancel? then Stopped(Cancelled, st)
      else Round(pol, results, State(st.flags[i := a.mark], a.next), i + 1)
  }

  /** Every share flagged in f is flagged in g. */
  predicate FlagsKept(f: seq<bool>, g: seq<bool>)
    requires |f| == |g|
  {
    forall j :: 0 <= j < |f| && f[j] ==> g[j]
  }

  /** A round never clears a flag and leaves the shares before i alone; a round that
      finishes without consuming a result leaves every share from i on flagged. */
  lemma {:induction false} RoundFacts(pol: Policy, results: seq<Int32>, st: State, i: nat)
    requires i <= |st.flags| && st.next <= |results|
    ensures FlagsKept(st.flags, Round(pol, results, st, i).st.flags)
    ensures forall j :: 0 <= j < i ==> Round(pol, results, st, i).st.flags[j] == st.flags[j]
    ensures Round(pol, results, st, i).Finished? && Round(pol, results, st, i).st.next == st.next ==>
              forall j :: i <= j < |st.flags| ==> Round(pol, results, st, i).st.flags[j]
    decreases |st.flags| - i
  {
    if i == |st.flags| {
    } else if st.flags[i] {
      RoundFacts(pol, results, st, i + 1);
    } else {
      var a := AttemptShare(pol, results, st.next);
      if a.Done? {
        RoundFacts(pol, results, State(st.flags[i := a.mark], a.next), i + 1);
      }
    }
  }

  /** A round that finishes with a share still unflagged has consumed a result. */
  lemma {:induction false} RoundProgress(pol: Policy, results: seq<Int32>, st: State)
    requires st.next <= |results|
    requires Round(pol, results, st, 0).Finished? && !AllMapped(Round(pol, results, st, 0).st.flags)
    ensures st.next < Round(pol, results, st, 0).st.next
  {
    RoundFacts(pol, results, st, 0);
  }

  /** How the retry loop ends: its outcome, the final state, and the number of
      rounds begun. */
  datatype RunEnd = RunEnd(outcome: Outcome, st: State, rounds: nat)

  /** The retry loop from round number round on: the outcome, the final state and the
      number of rounds begun. */
  function Run(pol: Policy, results: seq<Int32>, st: State, round: nat): (r: RunEnd)
    requires st.next <= |results|
    ensures |r.st.flags| == |st.flags| && st.next <= r.st.next <= |results|
    decreases |results| - st.next
  {
    if !pol.retryForever && round >= RETRY_COUNT then RunEnd(RoundsExhausted, st, round)
    else
      var rr := Round(pol, results, st, 0);
      if rr.Stopped? then RunEnd(rr.outcome, rr.st, round + 1)
      else if AllMapped(rr.st.flags) then RunEnd(Mapped, rr.st, round + 1)
      else
        RoundProgress(pol, results, st);
        Run(pol, results, rr.st, round + 1)
  }

  lemma {:induction false} RoundSkips(pol: Policy, results: seq<Int32>, st: State, i: nat)
    requires i < |st.flags| && st.next <= |results| && st.flags[i]
    ensures Round(pol, results, st, i) == Round(pol, results, st, i + 1)
  {
  }

  lemma {:induction false} RoundAttempts(pol: Policy, results: seq<Int32>, st: State, i: nat)
    requires i < |st.flags| && st.next <= |results| && !st.flags[i]
    requires AttemptShare(pol, results, st.next).Done?
    ensures Round(pol, results, st, i) ==
              Round(pol, results, State(st.flags[i := AttemptShare(pol, results, st.next).mark],
                                        AttemptShare(pol, results, st.next).next), i + 1)
  {
  }

  lemma {:induction false} RoundStops(pol: Policy, results: seq<Int32>, st: State, i: nat)
    requires i < |st.flags| && st.next <= |results| && !st.flags[i]
    requires !AttemptShare(pol, results, st.next).Done?
    ensures Round(pol, results, st, i).Stopped? && Round(pol, results, st, i).st == st
  {
  }

  /** A round that finishes with a share unflagged is followed by the next round. */
  lemma {:induction false} RunContinues(pol: Policy, results: seq<Int32>, st: State, round: nat, st': State)
    requires st.next <= |results| && (pol.retryForever || round < RETRY_COUNT)
    requires Round(pol, results, st, 0) == Finished(st') && !AllMapped(st'.flags)
    ensures st.next < st'.next <= |results|
    ensures Run(pol, results, st, round) == Run(pol, results, st', round + 1)
  {
    RoundProgress(pol, results, st);
  }

  /** With unmount on, a cancel that fails with anything but success or "not
      connected" flags the share and goes on to the next one, consuming one result. */
  lemma {:induction false} FailedUnmountMarks(pol: Policy, results: seq<Int32>, next: nat)
    requires pol.unmount && next < |results|
    requires results[next] != NO_ERROR && results[next] != ERROR_NOT_CONNECTED
    ensures AttemptShare(pol, results, next) == Done(true, next + 1)
  {
  }

  /** With interactive mode on, the interactive attempt follows the unmount (when that
      is on and succeeds, or finds nothing connected) directly. */
  lemma {:induction false} InteractiveEntry(pol: Policy, results: seq<Int32>, next: nat)
    requires pol.interactive && next <= |results|
    requires pol.unmount ==> next < |results| && (results[next] == NO_ERROR || results[next] == ERROR_NOT_CONNECTED)
    ensures AttemptShare(pol, results, next) == InteractiveAttempt(pol, results, if pol.unmount then next + 1 else next)
  {
  }

  /** Without interactive mode, a silent attempt whose verdict falls back is followed by
      the interactive attempt, from the next result on. */
  lemma {:induction false} FallbackEntry(pol: Policy, results: seq<Int32>, next: nat)
    requires !pol.interactive && next <= |results|
    requires pol.unmount ==> next < |results| && (results[next] == NO_ERROR || results[next] == ERROR_NOT_CONNECTED)
    requires var n := if pol.unmount then next + 1 else next;
             n < |results| && SilentVerdictOf(results[n]) == Fallback
    ensures var n := if pol.unmount then next + 1 else next;
            AttemptShare(pol, results, next) == InteractiveAttempt(pol, results, n + 1)
  {
  }

  /** The interactive do-while loop, however it is entered: the prompt is repeated while
      the network is unreachable; it stops the run exactly when the result that ends it
      is a cancel; it runs out of results only when no such result comes; and otherwise
      it goes on after that result, which is never a network error. */
  lemma {:induction false} InteractivePrompt(pol: Policy, results: seq<Int32>, n: nat)
    requires n <= |results|
    ensures var k := InteractiveEnd(results, n);
              (InteractiveAttempt(pol, results, n) == Cancel <==> k < |results| && results[k] == ERROR_CANCELLED) &&
              (InteractiveAttempt(pol, results, n) == NoResult <==> k == |results|) &&
              (InteractiveAttempt(pol, results, n).Done? ==>
                 InteractiveAttempt(pol, results, n).next == k + 1 && !IsNetworkRetry(results[k]))
  {
  }

  /** As written, an interactive attempt never flags its share, however it is entered. */
  lemma {:induction false} InteractiveNeverMarks(pol: Policy, results: seq<Int32>, n: nat)
    requires !pol.markInteractiveSuccess && n <= |results|
    ensures !(InteractiveAttempt(pol, results, n).Done? && InteractiveAttempt(pol, results, n).mark)
  {
  }

  /** As written, a share is flagged only by a failed unmount or by a silent verdict that
      flags it: never by an interactive attempt, in interactive mode or as a fallback. */
  lemma {:induction false} OnlySilentMarks(pol: Policy, results: seq<Int32>, next: nat)
    requires !pol.markInteractiveSuccess && next <= |results|
    ensures var a := AttemptShare(pol, results, next);
            var n := if pol.unmount then next + 1 else next;
            a.Done? && a.mark ==>
              (pol.unmount && next < |results| && results[next] != NO_ERROR && results[next] != ERROR_NOT_CONNECTED) ||
              (!pol.interactive && n < |results| &&
               (SilentVerdictOf(results[n]) == MarkMapped || SilentVerdictOf(results[n]) == Fatal))
  {
    var n := if pol.unmount then next + 1 else next;
    if n <= |results| {
      InteractiveNeverMarks(pol, results, n);
    }
    if n < |results| {
      InteractiveNeverMarks(pol, results, n + 1);
    }
  }

  /** With success flagged, an interactive connection that succeeds flags its share. */
  lemma {:induction false} InteractiveSuccessMarks(pol: Policy, results: seq<Int32>, n: nat)
    requires pol.markInteractiveSuccess
    requires n < |results| && results[n] == NO_ERROR
    ensures InteractiveAttempt(pol, results, n) == Done(true, n + 1)
  {
  }

  /** A round passes over the flagged shares i..j-1 and stops at share j, with the state
      unchanged, when the attempt on it is cancelled. */
  lemma {:induction false} RoundCancel(pol: Policy, results: seq<Int32>, st: State, i: nat, j: nat)
    requires i <= j < |st.flags| && st.next <= |results|
    requires forall k :: i <= k < j ==> st.flags[k]
    requires !st.flags[j] && AttemptShare(pol, results, st.next) == Cancel
    ensures Round(pol, results, st, i) == Stopped(Cancelled, st)
    decreases j - i
  {
    if i < j {
      RoundSkips(pol, results, st, i);
      RoundCancel(pol, results, st, i + 1, j);
    } else {
      RoundStops(pol, results, st, i);
    }
  }

  /** A cancelled prompt for the first unflagged share ends the run, in the round in
      which it comes, with outcome Cancelled (MapDrives returns false) and nothing else
      flagged. */
  lemma {:induction false} RunCancelled(pol: Policy, results: seq<Int32>, st: State, round: nat, j: nat)
    requires st.next <= |results| && (pol.retryForever || round < RETRY_COUNT)
    requires j < |st.flags| && (forall k :: 0 <= k < j ==> st.flags[k]) && !st.flags[j]
    requires AttemptShare(pol, results, st.next) == Cancel
    ensures Run(pol, results, st, round) == RunEnd(Cancelled, st, round + 1)
  {
    RoundCancel(pol, results, st, 0, j);
  }

  /** The retry loop never clears a flag; it reports Mapped only with every share
      flagged; without retry-forever it begins at most RETRY_COUNT rounds, and it
      gives up after exactly that many rounds, with a share still unflagged. */
  lemma {:induction false} RunFacts(pol: Policy, results: seq<Int32>, st: State, round: nat)
    requires st.next <= |results|
    ensures FlagsKept(st.flags, Run(pol, results, st, round).st.flags)
    ensures Run(pol, results, st, round).outcome == Mapped ==> AllMapped(Run(pol, results, st, round).st.flags)
    ensures !pol.retryForever && round <= RETRY_COUNT ==> Run(pol, results, st, round).rounds <= RETRY_COUNT
    ensures Run(pol, results, st, round).outcome == RoundsExhausted ==>
              !pol.retryForever && (round <= RETRY_COUNT ==> Run(pol, results, st, round).rounds == RETRY_COUNT)
    ensures Run(pol, results, st, round).outcome == RoundsExhausted && (round < RETRY_COUNT || !AllMapped(st.flags)) ==>
              !AllMapped(Run(pol, results, st, round).st.flags)
    decreases |results| - st.next
  {
    if !pol.retryForever && round >= RETRY_COUNT {
    } else {
      var rr := Round(pol, results, st, 0);
      RoundFacts(pol, results, st, 0);
      if rr.Stopped? {
        assert Run(pol, results, st, round) == RunEnd(rr.outcome, rr.st, round + 1);
      } else if AllMapped(rr.st.flags) {
        assert Run(pol, results, st, round) == RunEnd(Mapped, rr.st, round + 1);
      } else {
        RoundProgress(pol, results, st);
        RunFacts(pol, results, rr.st, round + 1);
        assert Run(pol, results, st, round) == Run(pol, results, rr.st, round + 1);
      }
    }
  }

  /** As written, a round in interactive mode without unmount flags no share. */
  lemma {:induction false} RoundNoMark(pol: Policy, results: seq<Int32>, st: State, i: nat)
    requires pol.interactive && !pol.unmount && !pol.markInteractiveSuccess
    requires i <= |st.flags| && st.next <= |results|
    ensures Round(pol, results, st, i).st.flags == st.flags
    decreases |st.flags| - i
  {
    if i == |st.flags| {
    } else if st.flags[i] {
      RoundNoMark(pol, results, st, i + 1);
    } else {
      var a := AttemptShare(pol, results, st.next);
      OnlySilentMarks(pol, results, st.next);
      if a.Done? {
        assert st.flags[i := a.mark] == st.flags;
        RoundNoMark(pol, results, State(st.flags, a.next), i + 1);
      }
    }
  }

  /** As written, MapDrives in interactive mode without unmount never reports success
      while a share is unflagged, however the prompts are answered. */
  lemma {:induction false} InteractiveNeverMapped(pol: Policy, results: seq<Int32>, st: State, round: nat)
    requires pol.interactive && !pol.unmount && !pol.markInteractiveSuccess
    requires st.next <= |results| && !AllMapped(st.flags)
    ensures Run(pol, results, st, round).outcome != Mapped
    decreases |results| - st.next
  {
    if !pol.retryForever && round >= RETRY_COUNT {
    } else {
      var rr := Round(pol, results, st, 0);
      RoundNoMark(pol, results, st, 0);
      if rr.Stopped? {
        assert Run(pol, results, st, round) == RunEnd(rr.outcome, rr.st, round + 1);
      } else {
        RoundProgress(pol, results, st);
        InteractiveNeverMapped(pol, results, rr.st, round + 1);
        assert Run(pol, results, st, round) == Run(pol, results, rr.st, round + 1);
      }
    }
  }

  /** With success flagged, a round in which every connection succeeds flags every
      share from i on, provided there is a result for each of them. */
  lemma {:induction false} RoundAllSucceed(pol: Policy, results: seq<Int32>, st: State, i: nat)
    requires pol.interactive && !pol.unmount && pol.markInteractiveSuccess
    requires i <= |st.flags| && st.next + (|st.flags| - i) <= |results|
    requires forall j :: st.next <= j < |results| ==> results[j] == NO_ERROR
    ensures Round(pol, results, st, i).Finished?
    ensures forall j :: i <= j < |st.flags| ==> Round(pol, results, st, i).st.flags[j]
    decreases |st.flags| - i
  {
    if i == |st.flags| {
    } else if st.flags[i] {
      RoundAllSucceed(pol, results, st, i + 1);
      RoundFacts(pol, results, st, i + 1);
    } else {
      InteractiveEntry(pol, results, st.next);
      InteractiveSuccessMarks(pol, results, st.next);
      var st' := State(st.flags[i := true], st.next + 1);
      RoundAllSucceed(pol, results, st', i + 1);
      RoundFacts(pol, results, st', i + 1);
    }
  }

  /** With success flagged, interactive MapDrives whose connections all succeed
      reports success after its first round. */
  lemma {:induction false} InteractiveSuccessMapped(pol: Policy, results: seq<Int32>, flags: seq<bool>)
    requires pol.interactive && !pol.unmount && pol.markInteractiveSuccess
    requires |flags| <= |results| && forall j :: 0 <= j < |results| ==> results[j] == NO_ERROR
    ensures Run(pol, results, State(flags, 0), 0).outcome == Mapped
    ensures Run(pol, results, State(flags, 0), 0).rounds == 1
  {
    RoundAllSucceed(pol, results, State(flags, 0), 0);
  }

  // ---------------------------------------------------------------------------
  // CWinMount
  // ---------------------------------------------------------------------------

  class WinMount {
    var unmount: bool
    var retryForever: bool
    var connectFlags: set<ConnectFlag>
    var iniFile: string
    var netShares: seq<NetShare>

    /** The shares are distinct objects, so marking one leaves the others alone. */
    ghost predicate Valid()
      reads this
    {
      Distinct(netShares)
    }

    function Current(): Settings
      reads this
    {
      Settings(unmount, retryForever, connectFlags, iniFile)
    }

    /** Unmount and retry off, no connect flags, no path and no shares. */
    constructor ()
      ensures Valid() && Current() == Settings(false, false, {}, "") && netShares == []
    {
      unmount, retryForever, connectFlags, iniFile := false, false, {}, "";
      netShares := [];
    }

    /** Reads the arguments in order until one is rejected; see CommandLine. */
    method ProcessCommandLine(vecArgs: seq<string>) returns (ok: bool)
      modifies this
      ensures (ok, Current()) == CommandLine(old(Current()), vecArgs, 0)
      ensures netShares == old(netShares)
    {
      var arguments := new CmdArguments(vecArgs);
      while true
        invariant fresh(arguments) && arguments.Valid() && arguments.vecStrArgs == vecArgs
        invariant CommandLine(old(Current()), vecArgs, 0) == CommandLine(Current(), vecArgs, arguments.index)
        invariant netShares == old(netShares)
        decreases arguments.count - arguments.index
      {
        ghost var before := Current();
        ghost var i := arguments.index;
        var more := arguments.ProcessArgument();
        if !more {
          return true;
        }
        var accepted := ProcessArgument(arguments);
        if !accepted {
          CommandLineRejectStep(vecArgs, i, before);
          return false;
        }
        assert arguments.index == i + 1;
        ghost var after := Current();
        CommandLineAcceptStep(vecArgs, i, before, after);
        assert CommandLine(old(Current()), vecArgs, 0) == CommandLine(after, vecArgs, i + 1);
      }
    }

    /** The body of the argument loop for the cursor's current argument: an option goes
        through ProcessOption, a positional argument becomes the path. Rejecting leaves
        the settings as they were. */
    method ProcessArgument(arguments: CmdArguments) returns (accepted: bool)
      requires arguments.optionName == OptionNameOf(arguments.argument)
      requires arguments.optionValue == OptionValueOf(arguments.argument)
      modifies this
      ensures accepted ==> ApplyArgument(old(Current()), arguments.argument) == Accept(Current())
      ensures !accepted ==> ApplyArgument(old(Current()), arguments.argument).Reject? && Current() == old(Current())
      ensures netShares == old(netShares)
    {
      var strArgument := arguments.GetArgument();
      if arguments.ArgumentIsOption() {
        OptionArgument(Current(), strArgument);
        accepted := ProcessOption(arguments);
      } else if |iniFile| == 0 {
        var path := Trim(strArgument, QuoteChars);
        iniFile := path;
        assert Current() == old(Current()).(iniFile := path);
        accepted := true;
      } else {
        accepted := false;
      }
    }

    /** The chain of TestOption calls on the current option; see ApplyOption. */
    method ProcessOption(arguments: CmdArguments) returns (accepted: bool)
      modifies this
      ensures accepted ==>
                ApplyOption(old(Current()), OptionKindOf(arguments.optionName), arguments.optionValue != []) == Accept(Current())
      ensures !accepted ==>
                ApplyOption(old(Current()), OptionKindOf(arguments.optionName), arguments.optionValue != []).Reject? &&
                Current() == old(Current())
      ensures netShares == old(netShares)
    {
      ghost var kind := OptionKindOf(arguments.optionName);
      if arguments.TestOption("help", "h") {
        return false;
      } else if arguments.TestOption("persist", "p") {
        assert kind == Persist;
        if arguments.OptionHasValue() {
          return false;
        }
        connectFlags := connectFlags + {CONNECT_UPDATE_PROFILE};
        assert Current() == old(Current()).(connectFlags := old(Current()).connectFlags + {CONNECT_UPDATE_PROFILE});
        assert arguments.optionValue == [];
        assert ApplyOption(old(Current()), Persist, false) == Accept(Current());
      } else if arguments.TestOption("interactive", "i") {
        assert kind == Interactive;
        if arguments.OptionHasValue() {
          return false;
        }
        connectFlags := connectFlags + {CONNECT_INTERACTIVE};
        assert Current() == old(Current()).(connectFlags := old(Current()).connectFlags + {CONNECT_INTERACTIVE});
        assert arguments.optionValue == [];
        assert ApplyOption(old(Current()), Interactive, false) == Accept(Current());
      } else if arguments.TestOption("unmount", "u") {
        assert kind == Unmount;
        if arguments.OptionHasValue() {
          return false;
        }
        unmount := true;
        assert Current() == old(Current()).(unmount := true);
        assert arguments.optionValue == [];
        assert ApplyOption(old(Current()), Unmount, false) == Accept(Current());
      } else if arguments.TestOption("retry", "r") {
        assert kind == Retry;
        if arguments.OptionHasValue() {
          return false;
        }
        retryForever := true;
        assert Current() == old(Current()).(retryForever := true);
        assert arguments.optionValue == [];
        assert ApplyOption(old(Current()), Retry, false) == Accept(Current());
      } else {
        return false;
      }
      return true;
    }

    /** Reads the lines of the configuration file in order: skipped lines are passed
        over, each share line adds an unmapped share, and the first other line stops
        the reading with its 1-based number; the shares added before it stay. The
        shares added are returned as created. */
    method ProcessIniFile(lines: seq<string>) returns (ok: bool, badLine: nat, ghost created: seq<NetShare>)
      requires Valid()
      modifies this
      ensures Valid()
      ensures Current() == old(Current()).(iniFile := if old(iniFile) == [] then DefaultIniFile else old(iniFile))
      ensures ok <==> FirstBad(lines, 0) == |lines|
      ensures if ok then badLine == 0 else badLine == FirstBad(lines, 0) + 1
      ensures netShares == old(netShares) + created
      ensures Texts(created) == SharesOf(lines[..FirstBad(lines, 0)])
      ensures forall share :: share in created ==> fresh(share) && !share.mapped
    {
      if |iniFile| == 0 {
        iniFile := DefaultIniFile;
      }
      ghost var start := netShares;
      created := [];
      AppendNil(start);
      var iLineCount := 0;
      while iLineCount < |lines|
        invariant iLineCount <= |lines| && FirstBad(lines, 0) == FirstBad(lines, iLineCount)
        invariant Valid()
        invariant netShares == start + created
        invariant Texts(created) == SharesOf(lines[..iLineCount])
        invariant forall share :: share in created ==> fresh(share) && !share.mapped
        invariant Current() == old(Current()).(iniFile := if old(iniFile) == [] then DefaultIniFile else old(iniFile))
      {
        var strLine := lines[iLineCount];
        FirstBadStep(lines, iLineCount);
        iLineCount := iLineCount + 1;
        var lineOk, added := ProcessLine(strLine);
        if !lineOk {
          AppendNil(start + created);
          return false, iLineCount, created;
        }
        AppendAssoc(start, created, added);
        TextsStep(created, added, lines, iLineCount - 1);
        created := created + added;
      }
      return true, 0, created;
    }

    /** The body of the line loop: a skipped line is passed over, a share line adds its
        share, and any other line is refused without adding anything. */
    method ProcessLine(strLine: string) returns (ok: bool, ghost added: seq<NetShare>)
      requires Valid()
      modifies this
      ensures Valid() && Current() == old(Current())
      ensures ok <==> LineOk(strLine)
      ensures !ok ==> added == []
      ensures netShares == old(netShares) + added && Texts(added) == SharesOf([strLine])
      ensures forall share :: share in added ==> fresh(share) && !share.mapped
    {
      SharesOfLine(strLine);
      AppendNil(netShares);
      added := [];
      if |strLine| > 0 && strLine[0] != ';' {
        var share := ParseShareLine(strLine);
        if share.None? {
          return false, [];
        }
        var netShare := AddShare(share.value.local, share.value.remote);
        added := [netShare];
      }
      return true, added;
    }

    /** Appends a new, unmapped share. */
    method AddShare(localName: string, remoteName: string) returns (share: NetShare)
      requires Valid()
      modifies this
      ensures Valid() && fresh(share) && netShares == old(netShares) + [share]
      ensures share.localName == localName && share.remoteName == remoteName && !share.mapped
      ensures Current() == old(Current())
    {
      share := new NetShare(localName, remoteName);
      DistinctAppend(netShares, share);
      netShares := netShares + [share];
    }

    /** Whether every share is mapped; true for no shares. */
    method AllDrivesMapped() returns (bMappedAll: bool)
      ensures bMappedAll <==> forall j :: 0 <= j < |netShares| ==> netShares[j].mapped
    {
      bMappedAll := true;
      var i := 0;
      while i < |netShares|
        invariant i <= |netShares|
        invariant bMappedAll <==> forall j :: 0 <= j < i ==> netShares[j].mapped
      {
        if !netShares[i].IsMapped() {
          bMappedAll := false;
        }
        i := i + 1;
      }
    }

    /** The switches of this run; see Policy. */
    function PolicyOf(markInteractiveSuccess: bool): Policy
      reads this
    {
      Policy(unmount, CONNECT_INTERACTIVE in connectFlags, retryForever, markInteractiveSuccess)
    }

    /** The shares' flags, in order, are flags. */
    ghost predicate FlagsAre(flags: seq<bool>)
      reads this, netShares
    {
      |flags| == |netShares| && forall j :: 0 <= j < |flags| ==> netShares[j].mapped == flags[j]
    }

    /** The retry loop over the shares, taking the operating system's results from
        results in order; markInteractiveSuccess is false as written. It returns true
        exactly when Run ends in Mapped, and leaves the shares flagged as Run says. */
    method MapDrives(results: seq<Int32>, markInteractiveSuccess: bool, ghost flags0: seq<bool>) returns (ok: bool)
      requires Valid() && FlagsAre(flags0)
      modifies netShares
      ensures ok <==> Run(PolicyOf(markInteractiveSuccess), results, State(flags0, 0), 0).outcome == Mapped
      ensures FlagsAre(Run(PolicyOf(markInteractiveSuccess), results, State(flags0, 0), 0).st.flags)
    {
      ghost var pol := PolicyOf(markInteractiveSuccess);
      ghost var goal := Run(pol, results, State(flags0, 0), 0);
      var next: nat := 0;
      ghost var flags := flags0;
      var iRetryCount: nat := 0;
      while retryForever || iRetryCount < RETRY_COUNT
        invariant FlagsAre(flags) && next <= |results|
        invariant goal == Run(pol, results, State(flags, next), iRetryCount)
        decreases |results| - next
      {
        var finished;
        finished, ok, next, flags := RetryRound(results, markInteractiveSuccess, next, flags, iRetryCount);
        if finished {
          return ok;
        }
        iRetryCount := iRetryCount + 1;
      }
      return false;
    }

    /** One iteration of the retry loop: a pass over the shares, then the test whether
        all are flagged. When the run ends here, ok is its result; otherwise the run
        goes on with the next round, a result further on. */
    method RetryRound(results: seq<Int32>, markInteractiveSuccess: bool, next: nat, ghost flags: seq<bool>, ghost round: nat)
      returns (finished: bool, ok: bool, next': nat, ghost flags': seq<bool>)
      requires Valid() && FlagsAre(flags) && next <= |results|
      requires retryForever || round < RETRY_COUNT
      modifies netShares
      ensures FlagsAre(flags') && next' <= |results|
      ensures finished ==>
                Run(PolicyOf(markInteractiveSuccess), results, State(flags, next), round).st.flags == flags' &&
                (ok <==> Run(PolicyOf(markInteractiveSuccess), results, State(flags, next), round).outcome == Mapped)
      ensures !finished ==>
                next < next' &&
                Run(PolicyOf(markInteractiveSuccess), results, State(flags, next), round) ==
                Run(PolicyOf(markInteractiveSuccess), results, State(flags', next'), round + 1)
    {
      ghost var pol := PolicyOf(markInteractiveSuccess);
      var stopped;
      stopped, next', flags' := MapRound(results, markInteractiveSuccess, next, flags);
      if stopped {
        return true, false, next', flags';
      }
      var bMappedAll := AllDrivesMapped();
      if bMappedAll {
        assert AllMapped(flags');
        return true, true, next', flags';
      }
      RunContinues(pol, results, State(flags, next), round, State(flags', next'));
      return false, false, next', flags';
    }

    /** One pass of the share loop, with the calls starting at position next; see
        Round. stopped says that a cancel or the end of the results ended the run. */
    method MapRound(results: seq<Int32>, markInteractiveSuccess: bool, next: nat, ghost flags: seq<bool>)
      returns (stopped: bool, next': nat, ghost flags': seq<bool>)
      requires Valid() && FlagsAre(flags) && next <= |results|
      modifies netShares
      ensures FlagsAre(flags')
      ensures stopped <==> Round(PolicyOf(markInteractiveSuccess), results, State(flags, next), 0).Stopped?
      ensures Round(PolicyOf(markInteractiveSuccess), results, State(flags, next), 0).st == State(flags', next')
    {
      ghost var pol := PolicyOf(markInteractiveSuccess);
      ghost var goal := Round(pol, results, State(flags, next), 0);
      next', flags' := next, flags;
      var i := 0;
      while i < |netShares|
        invariant i <= |netShares| && FlagsAre(flags') && next' <= |results|
        invariant goal == Round(pol, results, State(flags', next'), i)
        decreases |netShares| - i
      {
        var share := netShares[i];
        if !share.IsMapped() {
          var a := TryShare(share, results, next', markInteractiveSuccess);
          if !a.Done? {
            RoundStops(pol, results, State(flags', next'), i);
            return true, next', flags';
          }
          RoundAttempts(pol, results, State(flags', next'), i);
          flags' := flags'[i := a.mark];
          next' := a.next;
        } else {
          RoundSkips(pol, results, State(flags', next'), i);
        }
        i := i + 1;
      }
      return false, next', flags';
    }

    /** The body of the share loop for an unflagged share whose calls start at position
        next; see AttemptShare. The share is flagged exactly when the attempt says so. */
    method TryShare(share: NetShare, results: seq<Int32>, next: nat, markInteractiveSuccess: bool)
      returns (a: Attempt)
      requires next <= |results| && !share.mapped
      modifies share
      ensures a == AttemptShare(PolicyOf(markInteractiveSuccess), results, next)
      ensures share.mapped == (a.Done? && a.mark)
    {
      var n := next;
      if unmount {
        if n == |results| {
          return NoResult;
        }
        var result := results[n];
        n := n + 1;
        if result != NO_ERROR && result != ERROR_NOT_CONNECTED {
          share.SetMapped();
          return Done(true, n);
        }
      }
      var bTryInteractive := false;
      if CONNECT_INTERACTIVE !in connectFlags {
        if n == |results| {
          return NoResult;
        }
        var result := results[n];
        n := n + 1;
        if result == ERROR_CANCELLED || result == NO_ERROR || result == ERROR_ALREADY_ASSIGNED {
          share.SetMapped();
          return Done(true, n);
        } else if result == ERROR_DEVICE_ALREADY_REMEMBERED || result == ERROR_SESSION_CREDENTIAL_CONFLICT ||
                  result == ERROR_ALREADY_ASSIGNED {
          share.SetMapped();
          return Done(true, n);
        }
        if result != ERROR_LOGON_FAILURE && result != ERROR_BAD_DEV_TYPE {
          bTryInteractive := true;
        }
      }
      if CONNECT_INTERACTIVE in connectFlags || bTryInteractive {
        a := InteractiveConnect(share, results, n, markInteractiveSuccess);
        return a;
      }
      return Done(false, n);
    }

    /** The interactive do-while loop: prompt again while the network is unreachable,
        then stop on a cancel, or go on, flagging the share only on success when
        markInteractiveSuccess is set; see InteractiveAttempt. */
    method InteractiveConnect(share: NetShare, results: seq<Int32>, n: nat, markInteractiveSuccess: bool)
      returns (a: Attempt)
      requires n <= |results| && !share.mapped
      modifies share
      ensures a == InteractiveAttempt(PolicyOf(markInteractiveSuccess), results, n)
      ensures share.mapped == (a.Done? && a.mark)
    {
      var k := n;
      var result: Int32 := 0;
      while true
        invariant n <= k <= |results|
        invariant InteractiveEnd(results, n) == InteractiveEnd(results, k)
        decreases |results| - k
      {
        if k == |results| {
          return NoResult;
        }
        result := results[k];
        k := k + 1;
        if !IsNetworkRetry(result) {
          break;
        }
      }
      if result == ERROR_CANCELLED {
        return Cancel;
      }
      if markInteractiveSuccess && result == NO_ERROR {
        share.SetMapped();
        return Done(true, k);
      }
      return Done(false, k);
    }
  }
}
