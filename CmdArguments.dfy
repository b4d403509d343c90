/** A model of the command-line cursor CCmdArguments (CmdArguments.cpp, CmdArguments.h).
    The cursor walks the argument vector; for each argument it remembers the text and,
    for an option, the name and value on either side of the first '='. */
module CmdArguments {
  import opened StringUtils

  // ---------------------------------------------------------------------------
  // What the cursor computes for one argument
  // ---------------------------------------------------------------------------

  /** An option starts with '-', '+' or '/'. */
  predicate IsOption(s: string) {
    |s| > 0 && (s[0] == '-' || s[0] == '+' || s[0] == '/')
  }

  /** The option name of an argument: the text before the first '=' of an option (the
      whole option when it has none); "" for a non-option. */
  function OptionNameOf(s: string): string {
    if IsOption(s) then
      var sep := FirstOf(s, "=", 0);
      if sep < |s| && sep > 0 then s[..sep] else s
    else ""
  }

  /** The option value of an argument: the text after the first '=' of an option; ""
      for an option without '=' and for a non-option. */
  function OptionValueOf(s: string): string {
    if IsOption(s) then
      var sep := FirstOf(s, "=", 0);
      if sep < |s| && sep > 0 then s[sep + 1..] else ""
    else ""
  }

  /** The name/value split: for an option with '=', the name is free of '=' and
      name + "=" + value is the argument; for an option without '=', the name is the
      argument and the value ""; a non-option has neither. */
  lemma {:induction false} OptionSplit(s: string)
    ensures IsOption(s) && '=' in s ==>
              '=' !in OptionNameOf(s) && OptionNameOf(s) + "=" + OptionValueOf(s) == s
    ensures IsOption(s) && '=' !in s ==> OptionNameOf(s) == s && OptionValueOf(s) == ""
    ensures !IsOption(s) ==> OptionNameOf(s) == "" && OptionValueOf(s) == ""
  {
    if IsOption(s) {
      var sep := FirstOf(s, "=", 0);
      if '=' in s {
        assert sep < |s| by {
          var k :| 0 <= k < |s| && s[k] == '=';
          assert s[k] in "=";
        }
        assert sep > 0 by {
          assert s[0] != '=';
        }
        assert s == s[..sep] + "=" + s[sep + 1..];
      }
    }
  }

  /** `TestOption(long, short)` on an option name: "+long" or "--long" when long is
      given, "-short" or "/short" when short is given; case-sensitive. */
  function MatchesOption(name: string, strLong: string, strShort: string): bool {
    if |strLong| > 0 && (name == "+" + strLong || name == "--" + strLong) then true
    else if |strShort| > 0 && (name == "-" + strShort || name == "/" + strShort) then true
    else false
  }

  /** With neither part given nothing matches, and only an option can match. */
  lemma {:induction false} MatchesOptionSpellings(name: string, strLong: string, strShort: string)
    ensures strLong == [] && strShort == [] ==> !MatchesOption(name, strLong, strShort)
    ensures MatchesOption(name, strLong, strShort) ==> IsOption(name)
  {
  }

  // ---------------------------------------------------------------------------
  // GetOptionValue, as written and as evidently intended
  // ---------------------------------------------------------------------------

  /** GetOptionValue as written, on the cursor state (args, index, option value): an
      inline value is returned as is; otherwise the argument at index + 1 is taken,
      provided it exists and is not an option, and the index moves to it. Since index
      already points past the current argument, that is two places after it. */
  function OptionValueAsWritten(args: seq<string>, index: nat, optionValue: string, strValue: string)
    : (r: (bool, string, nat))
    requires index <= |args|
    ensures r.2 <= |args|
    ensures r.0 <==> optionValue != [] || (index + 1 < |args| && !IsOption(args[index + 1]))
    ensures optionValue != [] ==> r == (true, optionValue, index)
    ensures optionValue == [] && index + 1 < |args| && !IsOption(args[index + 1]) ==>
              r == (true, args[index + 1], index + 1)
    ensures !r.0 ==> r.1 == strValue && r.2 == index
  {
    if |optionValue| > 0 then (true, optionValue, index)
    else if index + 1 < |args| && !(index + 1 < |args| && IsOption(args[index + 1])) then
      (true, args[index + 1], index + 1)
    else (false, strValue, index)
  }

  /** The separate value that follows an option is skipped: for `--name value x` the
      answer is "x", and for `--name value` there is none. */
  lemma {:induction false} OptionValueSkipsNext()
    ensures OptionValueAsWritten(["--name", "value", "x"], 1, "", "") == (true, "x", 2)
    ensures OptionValueAsWritten(["--name", "value"], 1, "", "") == (false, "", 1)
  {
    assert !IsOption("x");
  }

  /** GetOptionValue as evidently intended: the argument right after the current one,
      at index, when it exists and is not an option. */
  function OptionValueIntended(args: seq<string>, index: nat, optionValue: string, strValue: string)
    : (r: (bool, string, nat))
    requires index <= |args|
    ensures r.2 <= |args|
    ensures optionValue != [] ==> r == (true, optionValue, index)
    ensures optionValue == [] ==>
              (r.0 <==> index < |args| && !IsOption(args[index])) &&
              (r.0 ==> r.1 == args[index] && r.2 == index + 1)
    ensures !r.0 ==> r.1 == strValue && r.2 == index
  {
    if |optionValue| > 0 then (true, optionValue, index)
    else if index < |args| && !IsOption(args[index]) then (true, args[index], index + 1)
    else (false, strValue, index)
  }

  /** The intended reading returns the separate value of `--name value x`. */
  lemma {:induction false} OptionValueIntendedTakesNext()
    ensures OptionValueIntended(["--name", "value", "x"], 1, "", "") == (true, "value", 2)
    ensures OptionValueIntended(["--name", "value"], 1, "", "") == (true, "value", 2)
  {
    assert !IsOption("value");
  }

  // ---------------------------------------------------------------------------
  // The cursor object
  // ---------------------------------------------------------------------------

  class CmdArguments {
    const vecStrArgs: seq<string>
    const count: nat
    var index: nat
    var argument: string
    var optionName: string
    var optionValue: string

    ghost predicate Valid()
      reads this
    {
      count == |vecStrArgs| && index <= count
    }

    /** A fresh cursor stands before the first argument. */
    constructor (vecArgs: seq<string>)
      ensures Valid() && vecStrArgs == vecArgs && index == 0
      ensures argument == "" && optionName == "" && optionValue == ""
    {
      vecStrArgs := vecArgs;
      count := |vecArgs|;
      index := 0;
      argument, optionName, optionValue := "", "", "";
    }

    /** The current argument is an option: it starts with '-', '+' or '/'. */
    function ArgumentIsOption(): (b: bool)
      reads this
      ensures b <==> argument != [] && argument[0] in {'-', '+', '/'}
    {
      IsOption(argument)
    }

    /** Move to the next argument and split it; with none left, report false and change
        nothing. */
    method ProcessArgument() returns (more: bool)
      requires Valid()
      modifies this
      ensures Valid()
      ensures more <==> old(index) < count
      ensures more ==> index == old(index) + 1 && argument == vecStrArgs[old(index)] &&
                       optionName == OptionNameOf(argument) && optionValue == OptionValueOf(argument)
      ensures !more ==> index == old(index) && argument == old(argument) &&
                        optionName == old(optionName) && optionValue == old(optionValue)
    {
      if index < count {
        argument := vecStrArgs[index];
        index := index + 1;
        if ArgumentIsOption() {
          var sep := FirstOf(argument, "=", 0);
          if sep < |argument| && sep > 0 {
            optionName := argument[..sep];
            optionValue := argument[sep + 1..];
          } else {
            optionName := argument;
            optionValue := "";
          }
        } else {
          optionName := "";
          optionValue := "";
        }
        return true;
      }
      return false;
    }

    function GetArgument(): (s: string)
      reads this
      ensures s == argument
    {
      argument
    }

    function GetOption(): (s: string)
      reads this
      ensures s == optionName
    {
      optionName
    }

    /** An empty value, as in "--x=", counts as no value. */
    function OptionHasValue(): (b: bool)
      reads this
      ensures b <==> optionValue != []
    {
      |optionValue| > 0
    }

    /** Whether the argument at index + 1 is an option. */
    function NextArgumentIsOption(): (b: bool)
      reads this
      requires Valid()
      ensures b <==> index + 1 < count && vecStrArgs[index + 1] != [] && vecStrArgs[index + 1][0] in {'-', '+', '/'}
    {
      index + 1 < count && IsOption(vecStrArgs[index + 1])
    }

    /** GetOptionValue as written: see OptionValueAsWritten. */
    method GetOptionValue(strValue: string) returns (ok: bool, value: string)
      requires Valid()
      modifies this
      ensures Valid()
      ensures (ok, value, index) == OptionValueAsWritten(vecStrArgs, old(index), optionValue, strValue)
      ensures argument == old(argument) && optionName == old(optionName) && optionValue == old(optionValue)
    {
      if OptionHasValue() {
        return true, optionValue;
      }
      if index + 1 < count && !NextArgumentIsOption() {
        index := index + 1;
        return true, vecStrArgs[index];
      }
      return false, strValue;
    }

    /** GetOptionValue as evidently intended: see OptionValueIntended. */
    method GetOptionValueIntended(strValue: string) returns (ok: bool, value: string)
      requires Valid()
      modifies this
      ensures Valid()
      ensures (ok, value, index) == OptionValueIntended(vecStrArgs, old(index), optionValue, strValue)
      ensures argument == old(argument) && optionName == old(optionName) && optionValue == old(optionValue)
    {
      if OptionHasValue() {
        return true, optionValue;
      }
      if index < count && !IsOption(vecStrArgs[index]) {
        value := vecStrArgs[index];
        index := index + 1;
        return true, value;
      }
      return false, strValue;
    }

    /** TestOption: the current option name is exactly one of the four spellings of a
        given part, case-sensitively. */
    function TestOption(strLong: string, strShort: string := ""): (b: bool)
      reads this
      ensures b <==> (strLong != [] && (optionName == "+" + strLong || optionName == "--" + strLong)) ||
                     (strShort != [] && (optionName == "-" + strShort || optionName == "/" + strShort))
    {
      MatchesOption(optionName, strLong, strShort)
    }
  }
}
