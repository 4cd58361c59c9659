/**
 * `check_alias_in_file`: the alias file, as the lines `fgets` returns, is
 * searched for a line `alias <name>=...` whose name is exactly the alias.
 */
module Scan {

  import opened Ascii

  /** The literal every declaration line starts with (`strncmp(line, "alias ", 6)`). */
  const DeclarationPrefix: string := "alias "

  /** The alias file as `fopen` finds it: absent, or present with its lines. */
  datatype AliasFile = Missing | Lines(lines: seq<CString>)

  predicate IsDeclaration(line: string) {
    |line| >= |DeclarationPrefix| && line[..|DeclarationPrefix|] == DeclarationPrefix
  }

  predicate NoEquals(s: string) {
    forall i :: 0 <= i < |s| ==> s[i] != '='
  }

  /** The first `=` at or after `i`, or the end of the line. */
  function NameEnd(line: string, i: nat): (j: nat)
    requires i <= |line|
    ensures i <= j <= |line|
    decreases |line| - i
  {
    if i == |line| || line[i] == '=' then i else NameEnd(line, i + 1)
  }

  lemma NameEndSpec(line: string, i: nat)
    requires i <= |line|
    ensures forall k :: i <= k < NameEnd(line, i) ==> line[k] != '='
    ensures NameEnd(line, i) < |line| ==> line[NameEnd(line, i)] == '='
    decreases |line| - i
  {
    if i < |line| && line[i] != '=' {
      NameEndSpec(line, i + 1);
    }
  }

  /**
   * `strtok(line, "=") + 6`: the text after the prefix up to the first `=`,
   * or up to the end of the line (newline included) when there is none.
   */
  function DeclaredName(line: string): (name: string)
    requires IsDeclaration(line)
    ensures NoEquals(name)
    ensures |DeclarationPrefix| + |name| <= |line|
    ensures line[..|DeclarationPrefix| + |name|] == DeclarationPrefix + name
    ensures |DeclarationPrefix| + |name| == |line| || line[|DeclarationPrefix| + |name|] == '='
  {
    NameEndSpec(line, |DeclarationPrefix|);
    line[|DeclarationPrefix|..NameEnd(line, |DeclarationPrefix|)]
  }

  /** `line` declares `alias`: the names compare equal byte for byte (`strcmp`). */
  predicate Declares(line: string, alias: string) {
    IsDeclaration(line) && DeclaredName(line) == alias
  }

  /** What `check_alias_in_file` answers. */
  predicate AliasDeclared(alias: string, file: AliasFile) {
    match file
    case Missing => false
    case Lines(lines) => exists i :: 0 <= i < |lines| && Declares(lines[i], alias)
  }

  /**
   * The `while (fgets(...))` loop: stop at the first declaration of `alias`;
   * a missing file, or reaching the end, answers false.
   */
  method CheckAliasInFile(alias: CString, file: AliasFile) returns (found: bool)
    ensures found <==> file.Lines? && exists i :: 0 <= i < |file.lines| && Declares(file.lines[i], alias)
    ensures found == AliasDeclared(alias, file)
  {
    if file.Missing? {
      return false;
    }
    var lines := file.lines;
    var i := 0;
    while i < |lines|
      invariant 0 <= i <= |lines|
      invariant forall j :: 0 <= j < i ==> !Declares(lines[j], alias)
    {
      if IsDeclaration(lines[i]) {
        var name := DeclaredName(lines[i]);
        if name == alias {
          return true;
        }
      }
      i := i + 1;
    }
    return false;
  }

  // ---------------------------------------------------------------------
  // Properties of the scanner.

  /** Round trip: the line `alias <name>=<value>` declares exactly `name`. */
  lemma DeclaredNameOfDefinition(name: string, value: string)
    requires NoEquals(name)
    ensures IsDeclaration(DeclarationPrefix + name + "=" + value)
    ensures DeclaredName(DeclarationPrefix + name + "=" + value) == name
  {
    var line := DeclarationPrefix + name + "=" + value;
    var p := |DeclarationPrefix|;
    assert line[..p] == DeclarationPrefix;
    var n := DeclaredName(line);
    assert line[p + |name|] == '=';
    assert line[..p + |name|] == DeclarationPrefix + name;
    assert |n| == |name|;
    assert n == line[p..p + |n|];
  }

  /** Without an `=`, the name runs to the end of the line. */
  lemma DeclaredNameWithoutEquals(rest: string)
    requires NoEquals(rest)
    ensures IsDeclaration(DeclarationPrefix + rest)
    ensures DeclaredName(DeclarationPrefix + rest) == rest
  {
    var line := DeclarationPrefix + rest;
    assert line[..|DeclarationPrefix|] == DeclarationPrefix;
    var n := DeclaredName(line);
    assert |n| == |rest|;
    assert n == line[|DeclarationPrefix|..];
  }

  /** An alias containing `=` can never be found: no name contains one. */
  lemma AliasWithEqualsNeverDeclared(alias: string, file: AliasFile)
    requires '=' in alias
    ensures !AliasDeclared(alias, file)
  {
    if file.Lines? {
      forall i | 0 <= i < |file.lines| && IsDeclaration(file.lines[i])
        ensures DeclaredName(file.lines[i]) != alias
      {
        var k :| 0 <= k < |alias| && alias[k] == '=';
      }
    }
  }

  /** A declaration line found anywhere in the file is reported. */
  lemma DeclaredAnywhere(alias: string, before: seq<CString>, line: CString, after: seq<CString>)
    requires Declares(line, alias)
    ensures AliasDeclared(alias, Lines(before + [line] + after))
  {
    assert (before + [line] + after)[|before|] == line;
  }

  /** The example of a profile holding `alias ab='ls -la'`. */
  lemma ProfileExample()
    ensures AliasDeclared("ab", Lines(["alias ab='ls -la'\n"]))
    ensures !AliasDeclared("zz", Lines(["alias ab='ls -la'\n"]))
  {
    var line: CString := "alias ab='ls -la'\n";
    DeclaredNameOfDefinition("ab", "'ls -la'\n");
    assert line == DeclarationPrefix + "ab" + "=" + "'ls -la'\n";
    assert Declares([line][0], "ab");
  }

  /**
   * No trimming and no case-folding: the newline of an `=`-less line, a
   * second space or a different case all prevent a match.
   */
  lemma ExactComparison()
    ensures !Declares("alias ab\n", "ab") && Declares("alias ab\n", "ab\n")
    ensures !Declares("alias  ab=x", "ab")
    ensures !Declares("alias AB=x", "ab")
  {
    DeclaredNameWithoutEquals("ab\n");
    assert "alias ab\n" == DeclarationPrefix + "ab\n";
    DeclaredNameOfDefinition(" ab", "x");
    assert "alias  ab=x" == DeclarationPrefix + " ab" + "=" + "x";
    DeclaredNameOfDefinition("AB", "x");
    assert "alias AB=x" == DeclarationPrefix + "AB" + "=" + "x";
  }

  /**
   * The last line of a file may lack its newline; an `=`-less line then
   * names exactly the rest of the line and does match.
   */
  lemma UnterminatedLineDeclares()
    ensures AliasDeclared("l", Lines(["alias l"]))
    ensures !AliasDeclared("l", Lines(["alias l\n"]))
  {
    DeclaredNameWithoutEquals("l");
    assert "alias l" == DeclarationPrefix + "l";
    assert Declares(["alias l"][0], "l");
    DeclaredNameWithoutEquals("l\n");
    assert "alias l\n" == DeclarationPrefix + "l\n";
  }

  /** A file is never consulted when it is missing. */
  lemma MissingFileNeverDeclares(alias: string)
    ensures !AliasDeclared(alias, Missing)
  {
  }
}
