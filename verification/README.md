# synonym, modelled in Dafny

`synonym` is a small command-line tool. Given a shell command such as
`list all files`, it proposes a short alias (`laf`). It then checks whether an
alias of that name is already declared in a shell start-up file, and prints
either a ready-to-paste `alias laf='list all files'` line or a notice that the
alias exists. It can also print help, or a list of popular aliases for a
target platform.

This project models the three pure cores of `synonym.c` and proves what they
do:

- **Alias derivation** (`generate_alias`), in `tokenize.dfy` and `generate.dfy`.
  - The command is truncated to 255 characters and split with `strtok` on the
    space character alone.
  - The first one, two or three characters of every token are lower-cased and
    concatenated.
  - `Tokenize` models `strtok` as the C function behaves. It keeps a position
    in one buffer, skips runs of spaces, never yields an empty token, and
    resumes just past the space it overwrote.
  - `Generate.GenerateAlias` is the loop as written; `Generate.Alias` is what
    it computes.
- **Declaration matching** (`check_alias_in_file`), in `scan.dfy`.
  - The file is the sequence of lines `fgets` returns, or `Missing` when
    `fopen` fails.
  - A line counts only if it starts with `alias `. Its name runs from there
    to the first `=`, or to the end of the line (newline included).
  - The name is compared with the alias byte for byte.
- **Argument parsing and dispatch** (`main`), in `driver.dfy`.
  - `Driver.ParseFrom` is the `for` loop over `argv`.
  - `Driver.Run` is the fixed order of outcomes: usage, help, platform list,
    missing command, then generate-and-check.
  - The loop is shown equal to a fold over *segments*: a value flag with its
    value, `-p`/`-h`, or a plain argument. The segments are a second
    reading of the argument list, and the facts about the final options are
    stated and proved in their terms.
  - `Driver.Synonym` rebuilds `main` from the two methods that mirror the C
    functions, and is proved equal to `Run`.

Characters stand for bytes. `tolower` is the ASCII mapping of the "C" locale.
Strings taken from `argv` or from a file are `CString`s, which hold no NUL.
An `argv` string cannot hold one. A file line that holds a NUL byte is
represented by its part before the NUL, which is all that `strncmp`, `strtok`
and `strcmp` see (synonym.c:103-106).
Three things are parameters of the model:

- the platform found by `detect_platform`;
- `atoi`;
- the file system, as a map from path to lines. A path the map lacks cannot
  be opened.

In five places the code does something a user might not expect:

- A command longer than 255 characters is silently truncated, not rejected.
- A line that starts with `alias ` but has no `=` is not skipped. Its name is
  the rest of the line, newline included, so a newline-terminated line never
  matches an alias without a newline. A last line without its newline does
  match (`Scan.UnterminatedLineDeclares`).
- The command is the single argument `argv[command_start]`, where
  `command_start` is 1 plus the number of arguments that recognised options
  took. Options written after the command still move this position, so a
  different argument can become the command (`Driver.OptionAfterCommand`).
- A trailing `-m`, `-f` or `-t` with no value is neither an option nor an
  error, and it does not move `command_start`. It becomes the command only
  when it sits at `argv[command_start]`, as in `synonym -m`
  (`Driver.TrailingFlagIsTheCommand`); after a command it is ignored
  (`Driver.TrailingFlagAfterCommand`).
- Any failure to open the alias file is treated as a missing file. A read
  error after opening ends the scan as end of file does, so a declaration
  among the lines already read is still found.

## Model

| member | source | states |
|---|---|---|
| Ascii.ToLower | synonym.c:85 | `tolower` yields no upper-case letter; it maps A-Z to a-z at the fixed distance and returns every other character unchanged |
| Ascii.LowerToCaseless | synonym.c:85 | a character without case is the lower-casing of itself and of nothing else |
| Tokenize.StrTok | synonym.c:64 | each call that returns a token resumes strictly further on, so the token loop ends |
| Tokenize.StrTokResult | synonym.c:64-68 | `strtok` returns NULL exactly when only spaces remain, and otherwise a non-empty token without spaces |
| Tokenize.TokensAreWords | synonym.c:58-68 | every token is non-empty and space-free, and there are none exactly when the command is empty or all spaces |
| Tokenize.TokensCoverNonSpaces | synonym.c:58-89 | the tokens, concatenated, are exactly the non-space characters of the command in order; nothing is lost or invented |
| Tokenize.TokensOfJoin | synonym.c:58-89 | splitting words joined by single spaces gives the words back |
| Tokenize.TokensSplit | synonym.c:58-89 | the tokens of `a + " " + b` are the tokens of `a` followed by those of `b` |
| Tokenize.TokensUpper | synonym.c:58-89 | upper-casing the command upper-cases each token and leaves the split unchanged |
| Generate.Truncate | synonym.c:60-62 | the copy is a prefix of the command: the whole command when it is shorter than 256, else exactly its first 255 characters |
| Generate.Abbreviate | synonym.c:84-86 | one token contributes `min(k, length)` characters, each the lower-casing of the token's character at that place |
| Generate.CopyLowered | synonym.c:84-86 | the inner loop appends exactly the abbreviation of the token |
| Generate.GenerateAlias | synonym.c:57-91 | the alias written, NUL-free like the command, is the concatenation of the token abbreviations, and shorter than 256 |
| Generate.AliasLength | synonym.c:64-90 | the alias length is the sum over the tokens of `min(k, length)` |
| Generate.AliasBound | synonym.c:60-90 | the alias and its terminator fit in 256 bytes |
| Generate.AliasNoUpper | synonym.c:85 | the alias contains no upper-case letter |
| Generate.AliasCaseInsensitive | synonym.c:85 | the upper-cased command gives the same alias |
| Generate.AliasOmits | synonym.c:84-85 | a caseless character absent from the command (NUL, `=`, a quote) is absent from the alias |
| Generate.AliasOfBlank | synonym.c:64-90 | an empty or all-space command gives the empty alias |
| Generate.AliasOfWords | synonym.c:64-89 | for words joined by single spaces within 255 characters, the alias is the abbreviations of exactly those words |
| Generate.AliasIgnoresTail | synonym.c:61-62 | characters past the 255th never influence the alias |
| Generate.ListAllFiles | synonym.c:69-86 | "list all files" gives "laf" with the first-letter method |
| Generate.ListAllFilesTwoLetters | synonym.c:69-86 | "list all files" gives "lialfi" with the two-letter method |
| Generate.TabStaysInToken | synonym.c:58 | a tab does not delimit: "ls\t-la" is one token |
| Scan.DeclaredName | synonym.c:104-105 | the name is `=`-free, follows `alias ` directly, and ends at the first `=` or the end of the line |
| Scan.CheckAliasInFile | synonym.c:94-114 | true exactly when the file exists and some line declares the alias; a missing file gives false |
| Scan.DeclaredNameOfDefinition | synonym.c:103-106 | the line `alias <name>=<value>` declares exactly `name`, for any `=`-free name |
| Scan.DeclaredNameWithoutEquals | synonym.c:104-105 | without an `=`, the name is the whole rest of the line |
| Scan.AliasWithEqualsNeverDeclared | synonym.c:104-106 | an alias that contains `=` is never found |
| Scan.DeclaredAnywhere | synonym.c:101-110 | a declaring line is found wherever it stands in the file |
| Scan.ProfileExample | synonym.c:101-110 | a profile holding `alias ab='ls -la'` declares `ab` and not `zz` |
| Scan.UnterminatedLineDeclares | synonym.c:101-106 | an `=`-less last line without its newline, `alias l`, declares `l`; with the newline it does not |
| Scan.ExactComparison | synonym.c:103-106 | no trimming and no case-folding: the newline, a second space or a different case prevents a match |
| Driver.MethodChoice | synonym.c:202-217 | the values 1, 2 and 3 select the method of that width; any other value selects the first letter |
| Driver.MethodChoiceOfWidth | synonym.c:202-217 | choosing by a method's own width gives that method back |
| Driver.PlatformNamesRoundTrip | synonym.c:230-247 | every platform but OTHER has exactly one `-t` name, and reading that name gives the platform back |
| Driver.HeadSegment | synonym.c:201-250 | the first segment stands for the first one or two arguments exactly |
| Driver.SegmentsRecognised | synonym.c:201-250 | every `Valued` or `Switch` segment is one of the recognised flags: `-m`, `-f`, `-t` with a value, or `-p`, `-h` |
| Driver.SegmentsRoundTrip | synonym.c:201-251 | writing the segments back out gives the arguments again |
| Driver.ConsumedBound | synonym.c:200-251 | the options never take more arguments than there are |
| Driver.Apply | synonym.c:218-249 | a value flag advances `command_start` by 2, `-p`/`-h` by 1, anything else by 0 |
| Driver.ParseIsFold | synonym.c:201-251 | the `for` loop equals applying the segments of the arguments one after another |
| Driver.ApplyAllCommandStart | synonym.c:200-251 | `command_start` is its start value plus what the segments consume |
| Driver.ApplyAllSwitches | synonym.c:224-229 | the popular and help flags are set exactly when `-p` and `-h` occur as options, not as the value of `-m`/`-f`/`-t` |
| Driver.ApplyAllFile | synonym.c:220-223 | the last `-f` value names the file |
| Driver.ApplyAllMethod | synonym.c:202-219 | the last `-m` value selects the method |
| Driver.ApplyAllTarget | synonym.c:230-249 | the last recognised `-t` name selects the platform; unknown names change nothing |
| Driver.ParseSummary | synonym.c:192-251 | after parsing, `command_start` is 1 plus what the segments consume, and method, file, platform and both flags are as the segments say |
| Driver.RunWithoutArguments | synonym.c:187-190 | fewer than two arguments give the usage message and status 1 |
| Driver.RunHelp | synonym.c:253-256 | `-h` as an option (not as the value of `-m`/`-f`/`-t`) gives the help and status 0, whatever else is given |
| Driver.RunPlatformAliases | synonym.c:258-261 | without `-h`, `-p` lists the chosen platform's aliases with status 0 |
| Driver.RunNoCommand | synonym.c:263-266 | when the options use up every argument, "no command" and status 1 |
| Driver.RunGenerate | synonym.c:268-279 | otherwise the command at `command_start` is abbreviated; "already exists" is printed exactly when the chosen file declares the alias, and the definition otherwise |
| Driver.RunStatus | synonym.c:186-280 | the status is 1 exactly for the usage message and the missing command |
| Driver.Synonym | synonym.c:186-280 | `main` assembled from the loop methods agrees with the model on every input |
| Driver.DefinitionLineDeclares | synonym.c:276 | the printed definition line declares its alias when the alias has no `=` |
| Driver.AppendedDefinitionIsFound | synonym.c:268-279 | when the alias has no `=` and the file is empty, missing or ends in a newline, appending the printed definition makes the same run report that the alias exists |
| Driver.AppendAfterUnterminatedLine | synonym.c:101-106 | appended after a last line without a newline, the definition joins that line and its alias is not declared |
| Driver.NewlineAlias | synonym.c:101-106 | the command `a\nb` with `-m 3` gives the alias `a\nb`, and its definition read back line by line does not declare it |
| Driver.SegmentsOfOptions | synonym.c:201-251 | options followed by further arguments are read back as the same options |
| Driver.OptionsThenCommand | synonym.c:263-279 | with the options first and the command last, the alias of that command is generated with the chosen method and looked up in the chosen file |
| Driver.NamedPlatformList | synonym.c:230-261 | `-p -t freebsd` lists the FreeBSD aliases on any platform |
| Driver.UnknownPlatformIgnored | synonym.c:241-249 | `-t aix -t beos -p` keeps AIX |
| Driver.HelpWins | synonym.c:253-256 | help wins over `-p` and over a command |
| Driver.OptionsWithoutCommand | synonym.c:263-266 | `-m 2` alone leaves no command |
| Driver.MissingFileDefines | synonym.c:95-98 | with a `-f` file that cannot be opened, the definition of the command's alias is always printed |
| Driver.UnsupportedMethodIsFirstLetter | synonym.c:214-216 | `-m` with a value other than 1-3 behaves as if no `-m` were given |
| Driver.TrailingFlagIsTheCommand | synonym.c:200-268 | a lone `-m` is not an option but the command, and gives the alias `-` |
| Driver.HelpAsValue | synonym.c:218-256 | in `-f -h ls` the `-h` is the file name, not the help switch, so `ls` gives `l` |
| Driver.TrailingFlagAfterCommand | synonym.c:200-268 | in `ls -m` the value-less `-m` does not move the command position, so `ls` gives `l` |
| Driver.OptionAfterCommand | synonym.c:200-268 | in `"ls -la" -m 2` the command position moves past `ls -la`, so `2` is the command |

## Left out

- `detect_platform` is a build-time preprocessor choice. The detected platform is a parameter of `Driver.Run`.
- `print_help`, `print_popular_aliases` and the text of `print_platform_aliases` print fixed text. The model records which block is chosen (`Help`, `PlatformAliases(target)`) and not its contents.
- `stderr` messages (usage, invalid method, unknown platform, no command) are left out. Only the outcome and the exit status are modelled.
- `fopen`, `fgets` and `fclose` are left out. The file arrives already split into lines, and `fgets` cutting lines longer than 255 bytes into pieces is not modelled.
- `atoi` is a parameter. Its conversion of digit strings is not modelled.
- Ascii.ToLower: only the ASCII mapping of the "C" locale is modelled. Other locales and bytes at or above 128 are out of scope.
- A failure to open the file is treated like a missing file. A read error after opening ends the scan as end of file does, which the model expresses as a shorter list of lines.
- Driver.AppendedDefinitionIsFound: the appended definition is taken as one line. A command holding a newline would be read back by `fgets` as several lines; the first of them declares the alias only when the alias holds no newline, or holds one only at its end. An alias with a newline inside (command `a\nb` with `-m 3`) is not found again (`Driver.NewlineAlias`). That split is not modelled.
