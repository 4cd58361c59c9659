/**
 * `generate_alias`: the command is copied into a 256-byte buffer (so at most
 * 255 characters survive), split by `strtok` on spaces, and the first one,
 * two or three characters of every token are lower-cased and concatenated.
 */
module Generate {

  import opened Wrappers
  import opened Ascii
  import opened Tokenize

  /** `MAX_LINE`: the size of the command copy, of the alias buffer and of a file line. */
  const MaxLine: nat := 256

  /** `AliasMethod`: how many leading characters each token contributes. */
  datatype AliasMethod = FirstLetter | FirstTwoLetters | FirstThreeLetters {
    /** `chars_to_take` in the switch of `generate_alias`. */
    function Width(): (k: nat)
      ensures 1 <= k <= 3
    {
      match this
      case FirstLetter => 1
      case FirstTwoLetters => 2
      case FirstThreeLetters => 3
    }
  }

  function Min(a: nat, b: nat): nat {
    if a <= b then a else b
  }

  /**
   * `strncpy(command_copy, command, MAX_LINE - 1)` followed by the explicit
   * terminator: the longest prefix of at most 255 characters.
   */
  function Truncate(command: string): (r: string)
    ensures |r| == if |command| < MaxLine then |command| else MaxLine - 1
    ensures |r| < MaxLine
    ensures r <= command
    ensures |command| < MaxLine ==> r == command
  {
    if |command| < MaxLine then command else command[..MaxLine - 1]
  }

  /** What the inner `for` loop appends for one token. */
  function Abbreviate(tok: string, k: nat): (r: string)
    ensures |r| == Min(k, |tok|)
    ensures forall i :: 0 <= i < |r| ==> r[i] == ToLower(tok[i])
  {
    LowerAll(tok[..Min(k, |tok|)])
  }

  /** The abbreviations of the tokens, in token order, with no separator. */
  function AbbreviateAll(ts: seq<string>, k: nat): string {
    if |ts| == 0 then [] else Abbreviate(ts[0], k) + AbbreviateAll(ts[1..], k)
  }

  /** Sum over the tokens of `min(k, |token|)`. */
  function TakenCount(ts: seq<string>, k: nat): nat {
    if |ts| == 0 then 0 else Min(k, |ts[0]|) + TakenCount(ts[1..], k)
  }

  /** The alias `generate_alias` writes for `command`. */
  function Alias(command: string, how: AliasMethod): string {
    AbbreviateAll(Tokens(Truncate(command)), how.Width())
  }

  lemma AbbreviateAllCons(tok: string, ts: seq<string>, k: nat)
    ensures AbbreviateAll([tok] + ts, k) == Abbreviate(tok, k) + AbbreviateAll(ts, k)
  {
    assert ([tok] + ts)[1..] == ts;
  }

  /**
   * `generate_alias` as written: one `strtok` call per token, and an inner
   * loop that copies at most `chars_to_take` lower-cased characters.
   */
  method GenerateAlias(command: CString, how: AliasMethod) returns (alias: CString)
    ensures alias == Alias(command, how)
    ensures |alias| < MaxLine
  {
    var copy := Truncate(command);
    var k := how.Width();
    var written: string := [];
    var pos := 0;
    var next := StrTok(copy, pos);
    while next.Some?
      invariant pos <= |copy|
      invariant next == StrTok(copy, pos)
      invariant written + AbbreviateAll(TokensFrom(copy, pos), k) == AbbreviateAll(Tokens(copy), k)
      decreases |copy| - pos
    {
      var token := next.value.0;
      ghost var before := written;
      written := CopyLowered(written, token, k);
      AliasStep(before, copy, pos, token, next.value.1, k);
      pos := next.value.1;
      next := StrTok(copy, pos);
    }
    AliasDone(written, copy, pos, k);
    AliasBound(command, how);
    AliasOmits(command, how, '\0');
    alias := written;
  }

  /** The inner `for` loop of `generate_alias`. */
  method CopyLowered(alias: string, token: string, k: nat) returns (r: string)
    ensures r == alias + Abbreviate(token, k)
  {
    r := alias;
    var i := 0;
    while i < k && i < |token|
      invariant 0 <= i <= Min(k, |token|)
      invariant r == alias + LowerAll(token[..i])
    {
      assert token[..i + 1] == token[..i] + [token[i]];
      r := r + [ToLower(token[i])];
      i := i + 1;
    }
  }

  lemma AliasStep(before: string, s: string, i: nat, tok: string, next: nat, k: nat)
    requires i <= |s| && StrTok(s, i) == Some((tok, next))
    ensures before + AbbreviateAll(TokensFrom(s, i), k) ==
            (before + Abbreviate(tok, k)) + AbbreviateAll(TokensFrom(s, next), k)
  {
    TokensStep(s, i, tok, next);
    AbbreviateAllCons(tok, TokensFrom(s, next), k);
  }

  lemma AliasDone(alias: string, s: string, i: nat, k: nat)
    requires i <= |s| && StrTok(s, i).None?
    ensures alias + AbbreviateAll(TokensFrom(s, i), k) == alias
  {
    TokensDone(s, i);
  }

  // ---------------------------------------------------------------------
  // Properties of the alias.

  /** The alias length is the sum over the tokens of `min(k, |token|)`. */
  lemma {:induction false} AbbreviateAllLength(ts: seq<string>, k: nat)
    ensures |AbbreviateAll(ts, k)| == TakenCount(ts, k)
  {
    if |ts| > 0 {
      AbbreviateAllLength(ts[1..], k);
    }
  }

  lemma AliasLength(command: string, how: AliasMethod)
    ensures |Alias(command, how)| == TakenCount(Tokens(Truncate(command)), how.Width())
  {
    AbbreviateAllLength(Tokens(Truncate(command)), how.Width());
  }

  lemma {:induction false} TakenCountAtMostFlatten(ts: seq<string>, k: nat)
    ensures TakenCount(ts, k) <= |Flatten(ts)|
  {
    if |ts| > 0 {
      TakenCountAtMostFlatten(ts[1..], k);
    }
  }

  /**
   * At most 255 characters are written, so the alias and its terminator
   * always fit the 256-byte `alias` buffer of `main`.
   */
  lemma AliasBound(command: string, how: AliasMethod)
    ensures |Alias(command, how)| + 1 <= MaxLine
  {
    var copy := Truncate(command);
    AliasLength(command, how);
    TakenCountAtMostFlatten(Tokens(copy), how.Width());
    TokensCoverNonSpaces(copy);
    NonSpacesLength(copy);
  }

  lemma {:induction false} AbbreviateAllNoUpper(ts: seq<string>, k: nat)
    ensures NoUpper(AbbreviateAll(ts, k))
  {
    if |ts| > 0 {
      AbbreviateAllNoUpper(ts[1..], k);
      var a := Abbreviate(ts[0], k);
      var r := AbbreviateAll(ts[1..], k);
      assert forall i :: 0 <= i < |a + r| ==> (a + r)[i] == (if i < |a| then a[i] else r[i - |a|]);
    }
  }

  /** `tolower` is applied to every copied character: no upper-case letter survives. */
  lemma AliasNoUpper(command: string, how: AliasMethod)
    ensures NoUpper(Alias(command, how))
  {
    AbbreviateAllNoUpper(Tokens(Truncate(command)), how.Width());
  }

  lemma AbbreviateOmits(tok: string, k: nat, c: char)
    requires Caseless(c) && c !in tok
    ensures c !in Abbreviate(tok, k)
  {
    var a := Abbreviate(tok, k);
    forall i | 0 <= i < |a|
      ensures a[i] != c
    {
      LowerToCaseless(tok[i], c);
    }
  }

  lemma {:induction false} AbbreviateAllOmits(ts: seq<string>, k: nat, c: char)
    requires Caseless(c) && c !in Flatten(ts)
    ensures c !in AbbreviateAll(ts, k)
  {
    if |ts| > 0 {
      assert c !in ts[0] && c !in Flatten(ts[1..]);
      AbbreviateOmits(ts[0], k, c);
      AbbreviateAllOmits(ts[1..], k, c);
    }
  }

  /**
   * Every alias character is a lower-cased command character, so a
   * character that has no case and is absent from the command (the NUL,
   * `=`, a quote) is absent from the alias.
   */
  lemma AliasOmits(command: string, how: AliasMethod, c: char)
    requires Caseless(c) && c !in command
    ensures c !in Alias(command, how)
  {
    var copy := Truncate(command);
    assert c !in copy;
    NonSpacesOmits(copy, c);
    TokensCoverNonSpaces(copy);
    AbbreviateAllOmits(Tokens(copy), how.Width(), c);
  }

  lemma AbbreviateUpper(tok: string, k: nat)
    ensures Abbreviate(UpperAll(tok), k) == Abbreviate(tok, k)
  {
    var a := Abbreviate(UpperAll(tok), k);
    var b := Abbreviate(tok, k);
    forall i | 0 <= i < |a|
      ensures a[i] == b[i]
    {
      LowerUpper(tok[i]);
    }
  }

  lemma {:induction false} AbbreviateAllUpper(ts: seq<string>, k: nat)
    ensures AbbreviateAll(UpperWords(ts), k) == AbbreviateAll(ts, k)
  {
    if |ts| > 0 {
      AbbreviateUpper(ts[0], k);
      assert UpperWords(ts)[1..] == UpperWords(ts[1..]);
      AbbreviateAllUpper(ts[1..], k);
    }
  }

  lemma TruncateUpper(command: string)
    ensures Truncate(UpperAll(command)) == UpperAll(Truncate(command))
  {
  }

  /** Generating from the upper-cased command gives the same alias. */
  lemma AliasCaseInsensitive(command: string, how: AliasMethod)
    ensures Alias(UpperAll(command), how) == Alias(command, how)
  {
    var copy := Truncate(command);
    TruncateUpper(command);
    TokensUpper(copy);
    AbbreviateAllUpper(Tokens(copy), how.Width());
  }

  /** A command that is empty or only spaces yields the empty alias. */
  lemma AliasOfBlank(command: string, how: AliasMethod)
    requires AllSpaces(command)
    ensures Alias(command, how) == []
  {
    TokensAreWords(Truncate(command));
  }

  /**
   * For a command of at most 255 characters written as words separated by
   * single spaces, the alias is the abbreviations of exactly those words.
   */
  lemma AliasOfWords(ws: seq<string>, how: AliasMethod)
    requires forall i :: 0 <= i < |ws| ==> IsWord(ws[i])
    requires |Join(ws)| < MaxLine
    ensures Alias(Join(ws), how) == AbbreviateAll(ws, how.Width())
  {
    TokensOfJoin(ws);
  }

  /** Characters beyond the 255th never influence the alias. */
  lemma AliasIgnoresTail(command: string, tail: string, how: AliasMethod)
    requires |command| >= MaxLine - 1
    ensures Alias(command + tail, how) == Alias(command, how)
  {
    assert (command + tail)[..MaxLine - 1] == command[..MaxLine - 1];
    assert command[..|command|] == command;
    assert Truncate(command + tail) == Truncate(command);
  }

  /** The three words of the running example, and how their pieces spell out. */
  lemma ListAllFilesWords()
    ensures IsWord("list") && IsWord("all") && IsWord("files")
    ensures NoUpper("list") && NoUpper("all") && NoUpper("files")
    ensures Join(["list", "all", "files"]) == "list all files"
    ensures |Join(["list", "all", "files"])| < MaxLine
    ensures "l" + "a" + "f" == "laf" && "li" + "al" + "fi" == "lialfi"
  {
  }

  /** The command "list all files" gives "laf" with one letter per word ... */
  lemma ListAllFiles()
    ensures Alias(Join(["list", "all", "files"]), FirstLetter) == "laf"
  {
    var ws := ["list", "all", "files"];
    ListAllFilesWords();
    AliasOfWords(ws, FirstLetter);
    AbbreviateLower(ws[0], 1);
    AbbreviateLower(ws[1], 1);
    AbbreviateLower(ws[2], 1);
    AbbreviateThree(ws[0], ws[1], ws[2], 1, "l", "a", "f");
  }

  /** ... and "lialfi" with two. */
  lemma ListAllFilesTwoLetters()
    ensures Alias(Join(["list", "all", "files"]), FirstTwoLetters) == "lialfi"
  {
    var ws := ["list", "all", "files"];
    ListAllFilesWords();
    AliasOfWords(ws, FirstTwoLetters);
    AbbreviateLower(ws[0], 2);
    AbbreviateLower(ws[1], 2);
    AbbreviateLower(ws[2], 2);
    AbbreviateThree(ws[0], ws[1], ws[2], 2, "li", "al", "fi");
  }

  lemma AbbreviateThree(w0: string, w1: string, w2: string, k: nat, a0: string, a1: string, a2: string)
    requires Abbreviate(w0, k) == a0 && Abbreviate(w1, k) == a1 && Abbreviate(w2, k) == a2
    ensures AbbreviateAll([w0, w1, w2], k) == a0 + a1 + a2
  {
    var ws := [w0, w1, w2];
    assert ws[1..] == [w1, w2] && ws[2..] == [w2];
    assert AbbreviateAll([w2], k) == a2;
  }

  /** A word without upper-case letters abbreviates to its own prefix. */
  lemma AbbreviateLower(tok: string, k: nat)
    requires NoUpper(tok)
    ensures Abbreviate(tok, k) == tok[..Min(k, |tok|)]
  {
    LowerAllNoUpper(tok[..Min(k, |tok|)]);
  }

  /** Only the space delimits: a tab stays inside its token. */
  lemma TabStaysInToken()
    ensures Alias("ls\t-la", FirstTwoLetters) == "ls"
    ensures Alias("ls\t-la", FirstThreeLetters) == "ls\t"
  {
    var ws := ["ls\t-la"];
    assert Join(ws) == "ls\t-la";
    AliasOfWords(ws, FirstTwoLetters);
    AliasOfWords(ws, FirstThreeLetters);
  }
}
