# WinMount in Dafny

WinMount is a small Windows command-line tool. It reads drive-letter-to-share
lines from a configuration file (`\mount.ini` by default) and connects each share
through the operating system's `WNetAddConnection2`. Shares that fail are retried
for up to `RETRY_COUNT` rounds, or for ever with `--retry`. A silent connection
attempt can fall back to an interactive one that asks for credentials.

This project models the deterministic logic around those system calls and proves
what it promises. It has three modules, one per source file:

- `StringUtils` (StringUtils.dfy) is the string toolkit. It covers tokenising,
  splitting at the first delimiter, key=value lookup, Left/Mid/Right, prefix
  test, character and substring replacement, case mapping, case-insensitive
  equality, trimming, and hex and decimal formatting.
  - The pure operations are functions.
  - The loops (Tokenize, GetKeyValue, both Replace overloads, ToUpper/ToLower,
    EqualsNoCase) are methods proved against reference functions.
- `CmdArguments` (CmdArguments.dfy) is the command-line cursor `CCmdArguments`. It
  is a class with the fields the C++ object updates and the invariant
  `index <= count`.
- `WinMount` (WinMount.dfy) holds the two classes `CNetShare` (`NetShare`) and
  `CWinMount` (`WinMount`):
  - the error-message table `ShowError`;
  - command-line processing, specified by `CommandLine`;
  - configuration-line validation, specified by `FirstBad` and `SharesOf`;
  - `AllDrivesMapped`;
  - the `MapDrives` retry loop.

  `MapDrives` is proved against a reference definition (`AttemptShare`, `Round`,
  `Run`). In it, the results of `WNetCancelConnection2` and `WNetAddConnection2`
  are a sequence of result codes that the calls consume in order.

Integer widths are written out in these places (other fixed-width counters are listed under "Left out"):

- the `size_t` wrap-around in `Mid`;
- the `uint32_t`/`int8_t` parameters of `IntToHex`;
- the `int32_t` parameter of `Int32ToString`.

The DWORD `m_dwConnectFlags` is modelled as the set of flags it holds. `FlagBit`
gives each flag's bit, and `FlagWord` gives the word a set stands for.

## Model

| member | source | states |
|---|---|---|
| StringUtils.FirstOf | CmdArguments.cpp:31 | `find_first_of` from a position: every character before the result is outside the set, and the result is the end or a character in the set |
| StringUtils.Find | StringUtils.cpp:174 | `find` from a position: the result is the first occurrence at or after it; none means no occurrence at or after it |
| StringUtils.TokensWellFormed | StringUtils.cpp:20-40 | every token is non-empty and contains no delimiter |
| StringUtils.TokensOfRun | StringUtils.cpp:20-40 | a non-empty text without delimiters is exactly one token |
| StringUtils.TokensEmptyIff | StringUtils.cpp:20-40 | there are no tokens exactly when the input is empty or all delimiters |
| StringUtils.TokensFromRun | StringUtils.cpp:26-35 | the run up to the next delimiter is the next token, and tokenising continues after that delimiter |
| StringUtils.TokensFromSkip | StringUtils.cpp:26-31 | a delimiter that ends no run is skipped |
| StringUtils.Tokenize | StringUtils.cpp:20-40 | the index loop returns the maximal runs of non-delimiters in order, as the reference definition `Tokens` gives them |
| StringUtils.Split | StringUtils.cpp:43-54 | false exactly when the delimiter does not occur, with both outputs unchanged; otherwise the left part is the text before the first occurrence and the right part starts one character after its start |
| StringUtils.SplitRebuilds | StringUtils.cpp:43-54 | for a one-character delimiter, left + delimiter + right is the input |
| StringUtils.KeyValueOf | StringUtils.cpp:64 | a token has a key exactly when it contains '='; the key has no '=', and key + "=" + value is the token |
| StringUtils.SplitAtEquals | StringUtils.cpp:64-65 | splitting a token at "=" gives its key and value |
| StringUtils.FirstWithKey | StringUtils.cpp:60-70 | the first token whose key matches: no token before it matches, and the one found does |
| StringUtils.LookupKey | StringUtils.cpp:57-73 | none exactly when no token has the key; otherwise the first token with the key is key + "=" + value |
| StringUtils.GetKeyValue | StringUtils.cpp:57-73 | the iterator loop finds a value exactly when a token has the key, returns the value of the first such token, and otherwise hands back the caller's value |
| StringUtils.Substr | StringUtils.cpp:78-79 | `substr(pos, n)` has min(n, rest) characters taken from pos |
| StringUtils.Left | StringUtils.cpp:76-80 | a prefix of length min(count, length) |
| StringUtils.Right | StringUtils.cpp:95-99 | a suffix of length min(count, length) |
| StringUtils.Mid | StringUtils.cpp:83-92 | despite the `size_t` wrap-around of first + count, the slice from first to min(first + count, length); "" when first is past the end |
| StringUtils.StartsWith | StringUtils.cpp:151-154 | true exactly when the second string is a prefix of the first |
| StringUtils.LowerString | StringUtils.cpp:194-204 | `tolower` on every character: same length, no upper-case letter, and each character the same letter as before |
| StringUtils.UpperString | StringUtils.cpp:182-192 | `toupper` on every character: same length, no lower-case letter, and the same lower-case form |
| StringUtils.CaseMappingIdempotent | StringUtils.cpp:182-204 | mapping to upper or lower case twice is the same as once |
| StringUtils.ToUpper | StringUtils.cpp:182-192 | the loop over a copy returns the upper-case mapping |
| StringUtils.ToLower | StringUtils.cpp:194-204 | the loop over a copy returns the lower-case mapping |
| StringUtils.CStr | StringUtils.cpp:145-148 | what `c_str()` lets a C loop see: the prefix up to the first NUL |
| StringUtils.EqualsNoCase | StringUtils.cpp:128-148 | the character-by-character loop returns true exactly when the two C strings are equal after `tolower` |
| StringUtils.CStrMismatch | StringUtils.cpp:131-141 | a case-insensitive mismatch after a common NUL-free prefix makes the strings unequal |
| StringUtils.EqualsNoCaseMeaning | StringUtils.cpp:128-148 | for strings without NUL: equal length and equal characters after `tolower`, position by position |
| StringUtils.ReplaceChar | StringUtils.cpp:156-165 | same length; every cOld becomes cNew and every other character stays |
| StringUtils.ReplaceFromAt | StringUtils.cpp:174-177 | at the next occurrence, the text before it is kept, strNew is put in, and replacement continues after the occurrence |
| StringUtils.ReplaceFromNone | StringUtils.cpp:174 | with no occurrence left, the rest of the text is kept |
| StringUtils.ReplaceAll | StringUtils.cpp:167-179 | a text without strOld is unchanged |
| StringUtils.ReplaceWhole | StringUtils.cpp:174-177 | inserted text is never searched again: replacing the whole string gives strNew, even when strNew contains strOld |
| StringUtils.ReplaceAllSame | StringUtils.cpp:167-179 | replacing strOld by itself changes nothing |
| StringUtils.ReplaceInvStep | StringUtils.cpp:174-177 | one pass of the loop keeps the loop state and shrinks the unsearched rest, so the loop ends |
| StringUtils.ReplaceString | StringUtils.cpp:167-179 | an empty strOld leaves the string alone; otherwise the in-place loop gives the left-to-right, non-overlapping replacement `ReplaceAll` |
| StringUtils.TrimLeft | StringUtils.cpp:242-255 | a suffix of the input; an empty or all-in-set input comes back unchanged, and otherwise the result starts outside the set with only set characters removed |
| StringUtils.TrimRight | StringUtils.cpp:261-274 | a prefix of the input; an empty or all-in-set input comes back unchanged, and otherwise the result ends outside the set with only set characters removed |
| StringUtils.Trim | StringUtils.cpp:280-283 | an all-in-set input comes back unchanged; otherwise the result starts and ends outside the set |
| StringUtils.TrimIsSubstring | StringUtils.cpp:280-283 | the result of Trim is a contiguous piece of the input |
| StringUtils.TrimLeftKeeps | StringUtils.cpp:242-255 | a string that starts outside the set is its own TrimLeft |
| StringUtils.TrimRightKeeps | StringUtils.cpp:261-274 | a string that ends outside the set is its own TrimRight |
| StringUtils.TrimLeftIdempotent | StringUtils.cpp:242-255 | TrimLeft twice is TrimLeft once |
| StringUtils.TrimRightIdempotent | StringUtils.cpp:261-274 | TrimRight twice is TrimRight once |
| StringUtils.TrimIdempotent | StringUtils.cpp:280-283 | Trim twice is Trim once |
| StringUtils.DigitRoundTrip | StringUtils.cpp:211-213 | a digit the stream writes is a lower-case hex digit that reads back as its value |
| StringUtils.Numeral | StringUtils.cpp:211-213 | the stream's digits of n in base 10 or 16: non-empty, each below the base, and no leading '0' except for 0 itself |
| StringUtils.NumeralRoundTrip | StringUtils.cpp:211-213 | the digits read back give n |
| StringUtils.ZerosValue | StringUtils.cpp:211 | `setfill('0')` padding does not change the value |
| StringUtils.UpperValue | StringUtils.cpp:217 | upper-casing does not change the value of a digit string |
| StringUtils.PadLeft | StringUtils.cpp:211 | `setw` with fill '0': at least the width long, the digits preceded by zeros only |
| StringUtils.IntToHex | StringUtils.cpp:207-218 | never empty (0 gives "0"); only upper-case hex digits; at least iMinLen long when iMinLen is positive; a leading '0' only as padding |
| StringUtils.IntToHexRoundTrip | StringUtils.cpp:207-218 | the hex text reads back as iDecimal |
| StringUtils.Int32ToString | StringUtils.cpp:289-297 | decimal digits with a leading '-' exactly for negative values; no leading zero, and "0" exactly for zero |
| StringUtils.Int32ToStringRoundTrip | StringUtils.cpp:289-297 | the decimal text reads back as the value |
| CmdArguments.OptionSplit | CmdArguments.cpp:29-47 | for an option with '=', the name has no '=' and name + "=" + value is the argument; an option without '=' is all name with value ""; a non-option has neither |
| CmdArguments.MatchesOptionSpellings | CmdArguments.cpp:112-125 | with both the long and the short name empty nothing matches, and only an option (a name starting with '-', '+' or '/') can match |
| CmdArguments.OptionValueAsWritten | CmdArguments.cpp:92-109 | an inline value is returned without moving; otherwise the argument two places after the current one is taken, and the index moves, when it exists and is not an option; false exactly when there is no inline value and the next argument is missing or an option, and then nothing changes |
| CmdArguments.OptionValueSkipsNext | CmdArguments.cpp:101-105 | for `--name value x` the value returned is "x"; for `--name value` there is none |
| CmdArguments.OptionValueIntended | CmdArguments.cpp:92-109 | corrected reading: the argument right after the current one, when it exists and is not an option |
| CmdArguments.OptionValueIntendedTakesNext | CmdArguments.cpp:101-105 | the corrected reading returns "value" for `--name value x` and `--name value` |
| CmdArguments.CmdArguments.constructor | CmdArguments.cpp:4-7 | a new cursor has index 0, the given arguments and their count, and holds no argument |
| CmdArguments.CmdArguments.ArgumentIsOption | CmdArguments.cpp:10-18 | true exactly when the argument is non-empty and starts with '-', '+' or '/' |
| CmdArguments.CmdArguments.ProcessArgument | CmdArguments.cpp:22-54 | with arguments left: move one on, and set name and value from the first '='; with none left: return false and change nothing; `index <= count` is kept |
| CmdArguments.CmdArguments.GetArgument | CmdArguments.cpp:57-60 | the current argument |
| CmdArguments.CmdArguments.GetOption | CmdArguments.cpp:63-66 | the current option name |
| CmdArguments.CmdArguments.OptionHasValue | CmdArguments.cpp:69-77 | true exactly when the value is non-empty, so "--x=" has none |
| CmdArguments.CmdArguments.NextArgumentIsOption | CmdArguments.cpp:80-88 | true exactly when the argument at index + 1 exists and is an option |
| CmdArguments.CmdArguments.GetOptionValue | CmdArguments.cpp:92-109 | the method as written does what `OptionValueAsWritten` says and changes nothing but the index |
| CmdArguments.CmdArguments.GetOptionValueIntended | CmdArguments.cpp:92-109 | the corrected method does what `OptionValueIntended` says and changes nothing but the index |
| CmdArguments.CmdArguments.TestOption | CmdArguments.cpp:112-125 | true exactly when the current name is "+long" or "--long" (long non-empty), or "-short" or "/short" (short non-empty), compared case-sensitively |
| WinMount.FlagBit | WinMount.cpp:149-158 | each connect flag stands for a non-zero bit |
| WinMount.FlagWordOps | WinMount.cpp:149-158 | the two flag bits are disjoint; no flags is the word 0; adding a flag to the set is `|=` with its bit; `& FLAG` is non-zero exactly when the flag is in the set |
| WinMount.ShowError | WinMount.cpp:83-116 | "OK" exactly for 0; every other code's text ends with the code in parentheses; an unlisted code gives "Unknown error (code)" |
| WinMount.NetShare.constructor | WinMount.h:13 | a new share has the given names and is unmapped |
| WinMount.NetShare.IsMapped | WinMount.h:16 | the mapped flag |
| WinMount.NetShare.SetMapped | WinMount.h:17 | the flag becomes the argument, true by default; the names are constants and cannot change |
| WinMount.NetShare.GetLocalName | WinMount.h:18 | the local name given to the constructor |
| WinMount.NetShare.GetRemoteName | WinMount.h:19 | the remote name given to the constructor |
| WinMount.ShortNameMatches | CmdArguments.cpp:119-122 | a two-character name matches only as '-' or '/' followed by the one-letter short name |
| WinMount.HelpSpellings | WinMount.cpp:130 | "--help", "+help", "-h" and "/h" select help |
| WinMount.PersistSpellings | WinMount.cpp:142 | "--persist" and "-p" select persist |
| WinMount.InteractiveSpellings | WinMount.cpp:151 | "--interactive" and "/i" select interactive |
| WinMount.UnmountSpellings | WinMount.cpp:160 | "+unmount" and "-u" select unmount |
| WinMount.RetrySpellings | WinMount.cpp:169 | "--retry" and "/r" select retry |
| WinMount.OptionPrefixRules | WinMount.cpp:130-183 | a long name needs "+" or "--" and a short one "-" or "/": "-help", "--h" and "retry" are unknown |
| WinMount.OptionCaseSensitive | WinMount.cpp:142 | option names are case-sensitive: "-P" is unknown |
| WinMount.ApplyOption | WinMount.cpp:130-183 | rejected exactly for help, an unknown option or a known option with a value; otherwise only that option's setting is switched on |
| WinMount.ApplyArgument | WinMount.cpp:128-193 | rejected exactly under the rejection rules; an accepted argument only adds to the settings; the first positional argument becomes the path, trimmed of quotes |
| WinMount.CommandLineExtends | WinMount.cpp:120-198 | the command line never clears a setting: flags, unmount and retry only get switched on, and a non-empty path is kept |
| WinMount.CommandLineAccepts | WinMount.cpp:120-198 | the command line succeeds exactly when no argument is rejected in the settings the arguments before it produce |
| WinMount.CommandLineRejectStep | WinMount.cpp:178-193 | a rejected argument ends the command line with false and the settings reached so far |
| WinMount.CommandLineAcceptStep | WinMount.cpp:124-194 | an accepted argument moves the command line on to the next one |
| WinMount.ParseShareLine | WinMount.cpp:235-241 | a line is accepted exactly when it is a drive character, ':', one space, and a remote path of 3 to MAX_PATH characters starting with two backslashes; the parts are the first two characters and the rest after the space |
| WinMount.ShareLineSplit | WinMount.cpp:235 | splitting at the first space gives a two-character local part exactly when the line's third character is its first space |
| WinMount.FirstBad | WinMount.cpp:216-245 | the first line that is neither empty, a comment nor a share line: every line before it is fine |
| WinMount.SharesOf | WinMount.cpp:231-244 | at most one share per line; each share's drive is two characters ending in ':' and its remote path passes the path check |
| WinMount.SharesOfAppend | WinMount.cpp:216-245 | the shares of a file are the shares of its parts, in order |
| WinMount.SharesOfLine | WinMount.cpp:232-243 | a share line gives its share; an empty, comment or invalid line gives none |
| WinMount.FirstBadStep | WinMount.cpp:232-240 | after an acceptable line the first bad line is still ahead; an unacceptable line is the first bad one |
| WinMount.SilentVerdicts | WinMount.cpp:313-352 | the silent attempt flags the share on NO_ERROR, ERROR_CANCELLED and ERROR_ALREADY_ASSIGNED; it flags it as fatal on ERROR_DEVICE_ALREADY_REMEMBERED and ERROR_SESSION_CREDENTIAL_CONFLICT; it gives up for the round on ERROR_LOGON_FAILURE and ERROR_BAD_DEV_TYPE; it falls back to interactive on anything else |
| WinMount.InteractiveEnd | WinMount.cpp:358-369 | the prompt is repeated while the result is a network error: every result before the end is one, and the result at the end is not |
| WinMount.InteractiveAttempt | WinMount.cpp:354-384 | an interactive attempt that goes on consumes at least one result |
| WinMount.AttemptShare | WinMount.cpp:291-384 | an attempt that goes on consumes at least one result |
| WinMount.FailedUnmountMarks | WinMount.cpp:300-310 | with unmount on, a cancel that fails with anything but success or "not connected" flags the share and goes on |
| WinMount.InteractiveEntry | WinMount.cpp:291-313 | in interactive mode the prompt loop follows a successful (or nothing-connected) unmount directly |
| WinMount.FallbackEntry | WinMount.cpp:313-355 | without interactive mode, a silent result that falls back is followed by the prompt loop from the next result |
| WinMount.InteractivePrompt | WinMount.cpp:354-378 | however it is entered, the prompt loop stops the run exactly when the result ending it is ERROR_CANCELLED, runs out of results only when no result ends it, and otherwise goes on after that result, which is not a network error |
| WinMount.InteractiveNeverMarks | WinMount.cpp:371-383 | as written, the prompt loop never flags its share, however it is entered |
| WinMount.OnlySilentMarks | WinMount.cpp:291-384 | as written, a share is flagged only by a failed unmount or by a silent result that flags it (success, cancel, already assigned, or fatal), never by the prompt loop |
| WinMount.InteractiveSuccessMarks | WinMount.cpp:371-383 | with success flagged, a NO_ERROR from the prompt loop flags the share |
| WinMount.Round | WinMount.cpp:275-386 | one pass over the shares keeps their number and moves forward through the results; it stops early only on a cancel or when the results run out |
| WinMount.RoundSkips | WinMount.cpp:277 | a flagged share is passed over without consuming a result |
| WinMount.RoundCancel | WinMount.cpp:275-378 | a pass goes over the flagged shares and stops, with nothing changed, at the first unflagged share whose attempt is cancelled |
| WinMount.RoundFacts | WinMount.cpp:275-386 | a pass never clears a flag; a pass that consumes no result leaves every share flagged |
| WinMount.RoundProgress | WinMount.cpp:275-389 | a pass that finishes with a share unflagged has consumed a result, so the retry loop ends under any oracle |
| WinMount.Run | WinMount.cpp:264-395 | the retry loop keeps the number of shares and moves forward through the results |
| WinMount.RunCancelled | WinMount.cpp:264-378 | a cancel on the first unflagged share ends the whole run in that round with outcome Cancelled (MapDrives returns false) and no share newly flagged |
| WinMount.RunFacts | WinMount.cpp:264-395 | the loop never clears a flag; it reports Mapped only with every share flagged; without `--retry` it begins at most RETRY_COUNT rounds; it gives up after exactly RETRY_COUNT rounds with a share unflagged |
| WinMount.RoundNoMark | WinMount.cpp:354-384 | as written, a pass in interactive mode without unmount flags no share |
| WinMount.InteractiveNeverMapped | WinMount.cpp:354-389 | as written, interactive MapDrives without unmount never returns true while a share is unflagged, whatever the prompts return |
| WinMount.RoundAllSucceed | WinMount.cpp:275-386 | with success flagged and every connection succeeding, a pass flags every remaining share |
| WinMount.InteractiveSuccessMapped | WinMount.cpp:264-395 | with success flagged, interactive MapDrives whose connections all succeed returns true after one round |
| WinMount.WinMount.constructor | WinMount.h:39-45 | unmount and retry off, no connect flags, an empty path and no shares |
| WinMount.WinMount.ProcessCommandLine | WinMount.cpp:120-198 | the argument loop returns the verdict of `CommandLine` and leaves the settings it reaches; the shares are untouched |
| WinMount.WinMount.ProcessArgument | WinMount.cpp:126-193 | one argument acts as `ApplyArgument` says; a rejected argument leaves the settings as they were |
| WinMount.WinMount.ProcessOption | WinMount.cpp:130-183 | the chain of TestOption calls acts as `ApplyOption` says; a rejected option leaves the settings as they were |
| WinMount.WinMount.ProcessIniFile | WinMount.cpp:201-248 | an empty path becomes "\mount.ini"; success exactly when every line is acceptable; otherwise the 1-based number of the first bad line; the shares of the lines before it are appended in file order, new and unmapped |
| WinMount.WinMount.ProcessLine | WinMount.cpp:231-244 | one line: skipped, added as one new unmapped share, or refused without adding anything |
| WinMount.WinMount.AddShare | WinMount.cpp:242-243 | appends one new unmapped share with the given names and keeps the shares distinct |
| WinMount.WinMount.AllDrivesMapped | WinMount.cpp:251-261 | true exactly when every share is mapped, so true for no shares |
| WinMount.WinMount.MapDrives | WinMount.cpp:264-395 | the nested loops return true exactly when `Run` ends in Mapped, and leave the shares flagged as `Run` says |
| WinMount.WinMount.RetryRound | WinMount.cpp:266-390 | one round of the retry loop: either the run ends here with `Run`'s outcome, or it continues with the next round further on in the results |
| WinMount.WinMount.MapRound | WinMount.cpp:275-386 | the share loop ends in the state `Round` gives, and stops early exactly when `Round` does |
| WinMount.WinMount.TryShare | WinMount.cpp:291-384 | the attempt on one unflagged share is `AttemptShare`, and the share ends flagged exactly when the attempt flags it |
| WinMount.WinMount.InteractiveConnect | WinMount.cpp:354-384 | the do-while prompt loop is `InteractiveAttempt`, and the share ends flagged exactly when the attempt flags it |

## Left out

- The connection calls `WNetAddConnection2` and `WNetCancelConnection2` are not modelled. Their results are a sequence of codes given to `MapDrives`, consumed one per call.
- `Sleep(RETRY_DELAY)` between rounds has no effect on the logic and is left out.
- The ESC key abort (`_kbhit`/`_getch`, WinMount.cpp:293-297 and 315-319) is keyboard input and is left out.
- The `MessageBox` dialogs, the `std::cout`/`std::cerr` output, `ShowHelp` and the argument error printers are output only and are left out. The model keeps their verdicts.
- The file handling of `ProcessIniFile` (open, `getline`, `eof`, `bad`) is I/O. The model takes the file as a sequence of lines. A file that cannot be opened or read, which also returns false, is not modelled.
- `main` (WinMount.cpp:399-419) only sequences the calls and is not part of this model.
- `StringToInt32`, `StringToDouble`, `HexToByte` and `HexToWord` are not part of this model. They are thin wrappers over `strtol`/`strtod`, with base detection, whitespace skipping and floating point.
- `WinMount.Run`: the outcome `OutOfResults` exists only in the model. It is how a finite result sequence ends a run that would need more results. It also bounds `--retry` and the interactive prompt loop, which may retry for ever; no liveness claim is made.
- `WinMount.WinMount.MapDrives`: the shares' starting flags are passed as a ghost parameter, so that the contract can name them.
- `WinMount.WinMount.MapDrives`: the parameter `markInteractiveSuccess` selects the code as written (false) or the corrected behaviour (true). See Findings.
- `StringUtils.LowerString`: case mapping is ASCII only, as `tolower`/`toupper` behave in the "C" locale; other locales are not modelled.
- `StringUtils.Split`: requires a non-empty string or a non-empty delimiter. With both empty, `substr(1)` on the empty string throws `std::out_of_range`, and the exception is not modelled.
- `StringUtils.Mid`: requires the string to be shorter than 2^64, which any `std::string` is.
- `WinMount.ShowError`: the fixed texts of the listed codes are stated only through their common shape, "description (code)". The table itself is the function `Description`.
- The connect flags are a set of flags rather than a DWORD; `FlagWordOps` relates the set to the word of `FlagBit` bits.
- `StringUtils.Tokenize`: the loop indices `pos` and `last` are `unsigned int` (StringUtils.cpp:23) and would wrap on a line of 2^32 characters or more. The model's indices are unbounded, so it does not follow the code on such lines.
- The `int` counters `iLineCount` (WinMount.cpp:215) and `iRetryCount` (WinMount.cpp:266) would overflow after 2^31 lines or rounds. The model counts with unbounded integers.
- The result codes are `int32` values; every code the program tests fits in that range.

## Findings

| source | as written | input that shows it | evidently intended | confidence | as-written member | corrected member |
|---|---|---|---|---|---|---|
| CmdArguments.cpp:101-105 | with no inline value, `GetOptionValue` increments the index, which already points past the current option, and returns that argument: the one two places after the option | arguments `--name value x` with the cursor on `--name`: the value returned is "x"; for `--name value` there is none | return the argument right after the option, when it exists and is not an option | not executed; medium (the code comments call it a hack and ask how to skip the extra argument) | CmdArguments.OptionValueSkipsNext | CmdArguments.OptionValueIntendedTakesNext |
| WinMount.cpp:371-383 | a successful interactive connection does not flag its share, so the next round prompts again | `-i` with one share and the system answering NO_ERROR to every prompt: every round prompts again, and after RETRY_COUNT rounds `MapDrives` returns false | flag the share when the interactive connection succeeds, as the silent path does | not executed; medium | WinMount.InteractiveNeverMapped | WinMount.InteractiveSuccessMapped |

The second test of `ERROR_ALREADY_ASSIGNED` at WinMount.cpp:330 is never reached, because line 323 already flags that code. `WinMount.SilentVerdicts` shows that only the two other codes are fatal.
