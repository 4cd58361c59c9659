/**
 * `strtok(s, " ")` as `generate_alias` uses it. The only delimiter is the
 * space character, runs of delimiters collapse, and no empty token is ever
 * returned; tabs and every other character belong to tokens. Like the C
 * function, the model keeps a position in the one buffer it splits: each
 * call resumes just past the delimiter the previous call overwrote.
 */
module Tokenize {

  import opened Wrappers
  import opened Ascii

  const Delimiter: char := ' '

  predicate AllSpaces(s: string) {
    forall i :: 0 <= i < |s| ==> s[i] == Delimiter
  }

  predicate NoSpaces(w: string) {
    forall i :: 0 <= i < |w| ==> w[i] != Delimiter
  }

  /** What `strtok` can return as a token: non-empty, free of delimiters. */
  predicate IsWord(w: string) {
    |w| > 0 && NoSpaces(w)
  }

  /** The first position at or after `i` that is not a delimiter (`|s|` if none). */
  function SkipSpaces(s: string, i: nat): (j: nat)
    requires i <= |s|
    ensures i <= j <= |s|
    decreases |s| - i
  {
    if i == |s| || s[i] != Delimiter then i else SkipSpaces(s, i + 1)
  }

  /** The first delimiter at or after `i` (`|s|` if none): where a token ends. */
  function WordEnd(s: string, i: nat): (j: nat)
    requires i <= |s|
    ensures i <= j <= |s|
    decreases |s| - i
  {
    if i == |s| || s[i] == Delimiter then i else WordEnd(s, i + 1)
  }

  /**
   * Where the next call resumes after a token ending at `e`: past the
   * delimiter that was overwritten with NUL, or at the end of the string.
   */
  function Resume(s: string, e: nat): (k: nat)
    requires e <= |s|
    ensures e <= k <= |s|
  {
    if e < |s| then e + 1 else e
  }

  /**
   * One call of `strtok` that starts scanning at position `i`: `None` (NULL
   * in C) when only delimiters are left, otherwise the token and the
   * position the next call starts from, which always lies further on.
   */
  function StrTok(s: string, i: nat): (r: Option<(string, nat)>)
    requires i <= |s|
    ensures r.Some? ==> i < r.value.1 <= |s|
  {
    var lead := SkipSpaces(s, i);
    if lead == |s| then None
    else
      var e := WordEnd(s, lead);
      Some((s[lead..e], Resume(s, e)))
  }

  /** The tokens the `while (token != NULL)` loop visits from position `i` on. */
  function TokensFrom(s: string, i: nat): seq<string>
    requires i <= |s|
    decreases |s| - i
  {
    match StrTok(s, i)
    case None => []
    case Some((tok, next)) => [tok] + TokensFrom(s, next)
  }

  /** All the tokens of `s`, in order. */
  function Tokens(s: string): seq<string> {
    TokensFrom(s, 0)
  }

  /** The words written one after another with a single space between them. */
  function Join(ws: seq<string>): string {
    if |ws| == 0 then []
    else if |ws| == 1 then ws[0]
    else ws[0] + [Delimiter] + Join(ws[1..])
  }

  /** The characters of `s` from position `i` on that are not delimiters, in order. */
  function NonSpacesFrom(s: string, i: nat): string
    requires i <= |s|
    decreases |s| - i
  {
    if i == |s| then []
    else (if s[i] == Delimiter then [] else [s[i]]) + NonSpacesFrom(s, i + 1)
  }

  function NonSpaces(s: string): string {
    NonSpacesFrom(s, 0)
  }

  function Flatten(ws: seq<string>): string {
    if |ws| == 0 then [] else ws[0] + Flatten(ws[1..])
  }

  function UpperWords(ws: seq<string>): (r: seq<string>)
    ensures |r| == |ws|
  {
    seq(|ws|, i requires 0 <= i < |ws| => UpperAll(ws[i]))
  }

  // ---------------------------------------------------------------------
  // Facts about the two scanning functions.

  lemma SkipSpacesSpec(s: string, i: nat)
    requires i <= |s|
    ensures forall k :: i <= k < SkipSpaces(s, i) ==> s[k] == Delimiter
    ensures SkipSpaces(s, i) < |s| ==> s[SkipSpaces(s, i)] != Delimiter
    decreases |s| - i
  {
    if i < |s| && s[i] == Delimiter {
      SkipSpacesSpec(s, i + 1);
    }
  }

  lemma WordEndSpec(s: string, i: nat)
    requires i <= |s|
    ensures forall k :: i <= k < WordEnd(s, i) ==> s[k] != Delimiter
    ensures WordEnd(s, i) < |s| ==> s[WordEnd(s, i)] == Delimiter
    decreases |s| - i
  {
    if i < |s| && s[i] != Delimiter {
      WordEndSpec(s, i + 1);
    }
  }

  /** Inside a prefix `a` of `s`, a scan that stops before the end of `a` stops at the same place in `s`. */
  lemma SkipSpacesPrefix(a: string, s: string, i: nat)
    requires i <= |a| <= |s| && a == s[..|a|] && SkipSpaces(a, i) < |a|
    ensures SkipSpaces(s, i) == SkipSpaces(a, i)
    decreases |a| - i
  {
    assert s[i] == a[i];
    if a[i] == Delimiter {
      SkipSpacesPrefix(a, s, i + 1);
    }
  }

  /** A scan that runs to the end of the prefix `a` continues in `s` from `|a|`. */
  lemma SkipSpacesPrefixEnd(a: string, s: string, i: nat)
    requires i <= |a| <= |s| && a == s[..|a|] && SkipSpaces(a, i) == |a|
    ensures SkipSpaces(s, i) == SkipSpaces(s, |a|)
    decreases |a| - i
  {
    if i < |a| {
      assert s[i] == a[i];
      SkipSpacesPrefixEnd(a, s, i + 1);
    }
  }

  lemma WordEndPrefix(a: string, s: string, i: nat)
    requires i <= |a| <= |s| && a == s[..|a|] && WordEnd(a, i) < |a|
    ensures WordEnd(s, i) == WordEnd(a, i)
    decreases |a| - i
  {
    assert s[i] == a[i];
    if a[i] != Delimiter {
      WordEndPrefix(a, s, i + 1);
    }
  }

  lemma WordEndPrefixEnd(a: string, s: string, i: nat)
    requires i <= |a| <= |s| && a == s[..|a|] && WordEnd(a, i) == |a|
    ensures WordEnd(s, i) == WordEnd(s, |a|)
    decreases |a| - i
  {
    if i < |a| {
      assert s[i] == a[i];
      WordEndPrefixEnd(a, s, i + 1);
    }
  }

  lemma PrefixSlice(a: string, s: string, i: nat, j: nat)
    requires i <= j <= |a| <= |s| && a == s[..|a|]
    ensures s[i..j] == a[i..j]
  {
    assert forall k :: i <= k < j ==> s[k] == a[k];
  }

  lemma ConsSlice(s: string, i: nat, j: nat)
    requires i < j <= |s|
    ensures s[i..j] == [s[i]] + s[i + 1..j]
  {
  }

  /** Scanning the suffix `s[d..]` is scanning `s` from `d` on. */
  lemma SkipSpacesDrop(s: string, d: nat, j: nat)
    requires d + j <= |s|
    ensures SkipSpaces(s, d + j) == d + SkipSpaces(s[d..], j)
    decreases |s| - d - j
  {
    if d + j < |s| {
      assert s[d..][j] == s[d + j];
      SkipSpacesDrop(s, d, j + 1);
    }
  }

  lemma WordEndDrop(s: string, d: nat, j: nat)
    requires d + j <= |s|
    ensures WordEnd(s, d + j) == d + WordEnd(s[d..], j)
    decreases |s| - d - j
  {
    if d + j < |s| {
      assert s[d..][j] == s[d + j];
      WordEndDrop(s, d, j + 1);
    }
  }

  /** In a word, a token runs to the end. */
  lemma WordEndOfWord(w: string, i: nat)
    requires NoSpaces(w) && i <= |w|
    ensures WordEnd(w, i) == |w|
    decreases |w| - i
  {
    if i < |w| {
      WordEndOfWord(w, i + 1);
    }
  }

  lemma SkipSpacesUpper(s: string, i: nat)
    requires i <= |s|
    ensures SkipSpaces(UpperAll(s), i) == SkipSpaces(s, i)
    decreases |s| - i
  {
    if i < |s| {
      SkipSpacesUpper(s, i + 1);
    }
  }

  lemma WordEndUpper(s: string, i: nat)
    requires i <= |s|
    ensures WordEnd(UpperAll(s), i) == WordEnd(s, i)
    decreases |s| - i
  {
    if i < |s| {
      WordEndUpper(s, i + 1);
    }
  }

  // ---------------------------------------------------------------------
  // One call of `strtok` and the loop around it.

  /** `strtok` returns NULL exactly when only delimiters are left, and otherwise a word. */
  lemma StrTokResult(s: string, i: nat)
    requires i <= |s|
    ensures StrTok(s, i).None? <==> AllSpaces(s[i..])
    ensures StrTok(s, i).Some? ==> IsWord(StrTok(s, i).value.0)
  {
    SkipSpacesSpec(s, i);
    var lead := SkipSpaces(s, i);
    if lead < |s| {
      WordEndSpec(s, lead);
      assert s[i..][lead - i] == s[lead];
    }
  }

  /** One turn of the `while (token != NULL)` loop. */
  lemma TokensStep(s: string, i: nat, tok: string, next: nat)
    requires i <= |s| && StrTok(s, i) == Some((tok, next))
    ensures TokensFrom(s, i) == [tok] + TokensFrom(s, next)
  {
  }

  /** The loop ends when `strtok` returns NULL. */
  lemma TokensDone(s: string, i: nat)
    requires i <= |s| && StrTok(s, i).None?
    ensures TokensFrom(s, i) == []
  {
  }

  lemma TokensFromUnfold(s: string, i: nat)
    requires i <= |s| && SkipSpaces(s, i) < |s|
    ensures var lead := SkipSpaces(s, i);
            var e := WordEnd(s, lead);
            TokensFrom(s, i) == [s[lead..e]] + TokensFrom(s, Resume(s, e))
  {
  }

  /** Two scans that skip to the same position see the same tokens. */
  lemma TokensFromSameStart(s: string, i: nat, j: nat)
    requires i <= |s| && j <= |s| && SkipSpaces(s, i) == SkipSpaces(s, j)
    ensures TokensFrom(s, i) == TokensFrom(s, j)
  {
  }

  // ---------------------------------------------------------------------
  // Properties of the tokeniser.

  lemma {:induction false} TokensFromAreWords(s: string, i: nat)
    requires i <= |s|
    ensures forall k :: 0 <= k < |TokensFrom(s, i)| ==> IsWord(TokensFrom(s, i)[k])
    ensures |TokensFrom(s, i)| == 0 <==> SkipSpaces(s, i) == |s|
    decreases |s| - i
  {
    var lead := SkipSpaces(s, i);
    if lead < |s| {
      var e := WordEnd(s, lead);
      StrTokResult(s, i);
      TokensFromUnfold(s, i);
      TokensFromAreWords(s, Resume(s, e));
    }
  }

  /**
   * Every token is a non-empty run of non-delimiters, and there are none
   * exactly when the input is empty or all delimiters.
   */
  lemma TokensAreWords(s: string)
    ensures forall k :: 0 <= k < |Tokens(s)| ==> IsWord(Tokens(s)[k])
    ensures |Tokens(s)| == 0 <==> AllSpaces(s)
  {
    TokensFromAreWords(s, 0);
    StrTokResult(s, 0);
    assert s[0..] == s;
  }

  /**
   * With `a` a prefix of `s` followed by a delimiter, the tokens of `s` from
   * `i` are the tokens of `a` from `i`, then those after that delimiter.
   */
  lemma {:induction false} TokensFromPrefix(a: string, s: string, i: nat)
    requires i <= |a| < |s| && a == s[..|a|] && s[|a|] == Delimiter
    ensures TokensFrom(s, i) == TokensFrom(a, i) + TokensFrom(s, |a| + 1)
    decreases |a| - i
  {
    var lead := SkipSpaces(a, i);
    if lead == |a| {
      SkipSpacesPrefixEnd(a, s, i);
      TokensFromSameStart(s, i, |a| + 1);
    } else {
      SkipSpacesPrefix(a, s, i);
      var e := WordEnd(a, lead);
      PrefixSlice(a, s, lead, e);
      if e < |a| {
        WordEndPrefix(a, s, lead);
        TokensFromPrefix(a, s, e + 1);
        TokensPrefixWord(a, s, i, lead, e);
      } else {
        WordEndPrefixEnd(a, s, lead);
        TokensPrefixLast(a, s, i, lead);
      }
    }
  }

  lemma ConsAppend<T>(h: T, l: seq<T>, r: seq<T>, m: seq<T>, whole: seq<T>, left: seq<T>)
    requires whole == [h] + m && m == l + r && left == [h] + l
    ensures whole == left + r
  {
  }

  /** The step of `TokensFromPrefix` for a token that ends inside `a`. */
  lemma TokensPrefixWord(a: string, s: string, i: nat, lead: nat, e: nat)
    requires i <= lead <= e < |a| < |s|
    requires lead == SkipSpaces(a, i) == SkipSpaces(s, i)
    requires e == WordEnd(a, lead) == WordEnd(s, lead)
    requires s[lead..e] == a[lead..e]
    requires TokensFrom(s, e + 1) == TokensFrom(a, e + 1) + TokensFrom(s, |a| + 1)
    ensures TokensFrom(s, i) == TokensFrom(a, i) + TokensFrom(s, |a| + 1)
  {
    TokensFromUnfold(s, i);
    TokensFromUnfold(a, i);
    ConsAppend(a[lead..e], TokensFrom(a, e + 1), TokensFrom(s, |a| + 1),
               TokensFrom(s, e + 1), TokensFrom(s, i), TokensFrom(a, i));
  }

  /** The step of `TokensFromPrefix` for the token that ends `a`. */
  lemma TokensPrefixLast(a: string, s: string, i: nat, lead: nat)
    requires i <= lead < |a| < |s| && s[|a|] == Delimiter
    requires lead == SkipSpaces(a, i) == SkipSpaces(s, i)
    requires WordEnd(a, lead) == |a| && WordEnd(s, lead) == WordEnd(s, |a|)
    requires s[lead..|a|] == a[lead..|a|]
    ensures TokensFrom(s, i) == TokensFrom(a, i) + TokensFrom(s, |a| + 1)
  {
    var tok := a[lead..|a|];
    assert WordEnd(s, lead) == |a|;
    assert TokensFrom(a, |a|) == [];
    calc {
      TokensFrom(s, i);
      [tok] + TokensFrom(s, |a| + 1);
      ([tok] + TokensFrom(a, |a|)) + TokensFrom(s, |a| + 1);
      TokensFrom(a, i) + TokensFrom(s, |a| + 1);
    }
  }

  /** The tokens of the suffix `s[d..]` are the tokens of `s` from `d` on. */
  lemma {:induction false} TokensFromDrop(s: string, d: nat, j: nat)
    requires d + j <= |s|
    ensures TokensFrom(s, d + j) == TokensFrom(s[d..], j)
    decreases |s| - d - j
  {
    var b := s[d..];
    SkipSpacesDrop(s, d, j);
    var lead := SkipSpaces(b, j);
    if lead < |b| {
      var e := WordEnd(b, lead);
      WordEndDrop(s, d, lead);
      DropSlice(s, d, lead, e);
      TokensFromDrop(s, d, Resume(b, e));
      TokensDropWord(s, b, d, j, lead, e);
    }
  }

  lemma DropSlice(s: string, d: nat, i: nat, j: nat)
    requires d + i <= d + j <= |s|
    ensures s[d + i..d + j] == s[d..][i..j]
  {
  }

  /** The step of `TokensFromDrop` for one token of the suffix `b`. */
  lemma TokensDropWord(s: string, b: string, d: nat, j: nat, lead: nat, e: nat)
    requires |b| == |s| - d && j <= lead < |b|
    requires lead == SkipSpaces(b, j) && d + lead == SkipSpaces(s, d + j)
    requires e == WordEnd(b, lead) && d + e == WordEnd(s, d + lead)
    requires s[d + lead..d + e] == b[lead..e]
    requires TokensFrom(s, d + Resume(b, e)) == TokensFrom(b, Resume(b, e))
    ensures TokensFrom(s, d + j) == TokensFrom(b, j)
  {
    assert Resume(s, d + e) == d + Resume(b, e);
    TokensFromUnfold(s, d + j);
    TokensFromUnfold(b, j);
  }

  /**
   * Splitting distributes over a delimiter: the tokens of `a + " " + b` are
   * the tokens of `a` followed by those of `b`. Leading, trailing and
   * repeated delimiters therefore never produce empty tokens.
   */
  lemma TokensSplit(a: string, b: string)
    ensures Tokens(a + [Delimiter] + b) == Tokens(a) + Tokens(b)
  {
    var s := a + [Delimiter] + b;
    assert s[..|a|] == a;
    TokensFromPrefix(a, s, 0);
    assert s[|a| + 1..] == b;
    TokensFromDrop(s, |a| + 1, 0);
  }

  /** A single word, on its own, is its own only token. */
  lemma TokensOfWord(w: string)
    requires IsWord(w)
    ensures Tokens(w) == [w]
  {
    assert SkipSpaces(w, 0) == 0;
    WordEndOfWord(w, 0);
    TokensFromUnfold(w, 0);
    assert w[0..|w|] == w;
    assert TokensFrom(w, |w|) == [];
  }

  /** Round trip: joining words with single spaces and tokenising gives the words back. */
  lemma {:induction false} TokensOfJoin(ws: seq<string>)
    requires forall i :: 0 <= i < |ws| ==> IsWord(ws[i])
    ensures Tokens(Join(ws)) == ws
  {
    if |ws| == 1 {
      TokensOfWord(ws[0]);
    } else if |ws| > 1 {
      TokensOfWord(ws[0]);
      TokensSplit(ws[0], Join(ws[1..]));
      TokensOfJoin(ws[1..]);
      assert ws == [ws[0]] + ws[1..];
    }
  }

  lemma {:induction false} NonSpacesOverSpaces(s: string, i: nat)
    requires i <= |s|
    ensures NonSpacesFrom(s, i) == NonSpacesFrom(s, SkipSpaces(s, i))
    decreases |s| - i
  {
    if i < |s| && s[i] == Delimiter {
      NonSpacesOverSpaces(s, i + 1);
    }
  }

  lemma {:induction false} NonSpacesOverWord(s: string, i: nat)
    requires i <= |s|
    ensures NonSpacesFrom(s, i) == s[i..WordEnd(s, i)] + NonSpacesFrom(s, WordEnd(s, i))
    decreases |s| - i
  {
    var e := WordEnd(s, i);
    if i < |s| && s[i] != Delimiter {
      var tail := NonSpacesFrom(s, e);
      calc {
        NonSpacesFrom(s, i);
        [s[i]] + NonSpacesFrom(s, i + 1);
        { NonSpacesOverWord(s, i + 1); }
        [s[i]] + (s[i + 1..e] + tail);
        ([s[i]] + s[i + 1..e]) + tail;
        { ConsSlice(s, i, e); }
        s[i..e] + tail;
      }
    } else {
      assert s[i..e] == [];
    }
  }

  /**
   * The tokens are exactly the non-delimiter characters of the input, in
   * order: tokenising drops every space and nothing else.
   */
  lemma {:induction false} TokensFromCoverNonSpaces(s: string, i: nat)
    requires i <= |s|
    ensures Flatten(TokensFrom(s, i)) == NonSpacesFrom(s, i)
    decreases |s| - i
  {
    var lead := SkipSpaces(s, i);
    NonSpacesOverSpaces(s, i);
    if lead == |s| {
      assert NonSpacesFrom(s, lead) == [];
    } else {
      var e := WordEnd(s, lead);
      var tok := s[lead..e];
      TokensFromUnfold(s, i);
      NonSpacesOverWord(s, lead);
      WordEndSpec(s, lead);
      assert NonSpacesFrom(s, e) == NonSpacesFrom(s, Resume(s, e));
      TokensFromCoverNonSpaces(s, Resume(s, e));
      assert ([tok] + TokensFrom(s, Resume(s, e)))[1..] == TokensFrom(s, Resume(s, e));
    }
  }

  lemma TokensCoverNonSpaces(s: string)
    ensures Flatten(Tokens(s)) == NonSpaces(s)
  {
    TokensFromCoverNonSpaces(s, 0);
  }

  lemma {:induction false} NonSpacesFromLength(s: string, i: nat)
    requires i <= |s|
    ensures |NonSpacesFrom(s, i)| <= |s| - i
    decreases |s| - i
  {
    if i < |s| {
      NonSpacesFromLength(s, i + 1);
    }
  }

  /** Dropping delimiters never lengthens the text. */
  lemma NonSpacesLength(s: string)
    ensures |NonSpaces(s)| <= |s|
  {
    NonSpacesFromLength(s, 0);
  }

  lemma {:induction false} NonSpacesFromOmits(s: string, i: nat, c: char)
    requires i <= |s| && c !in s
    ensures c !in NonSpacesFrom(s, i)
    decreases |s| - i
  {
    if i < |s| {
      NonSpacesFromOmits(s, i + 1, c);
    }
  }

  /** `NonSpaces` only drops characters: it never introduces one. */
  lemma NonSpacesOmits(s: string, c: char)
    requires c !in s
    ensures c !in NonSpaces(s)
  {
    NonSpacesFromOmits(s, 0, c);
  }

  lemma UpperSlice(s: string, i: nat, j: nat)
    requires i <= j <= |s|
    ensures UpperAll(s)[i..j] == UpperAll(s[i..j])
  {
  }

  lemma UpperWordsCons(w: string, ws: seq<string>)
    ensures UpperWords([w] + ws) == [UpperAll(w)] + UpperWords(ws)
  {
  }

  lemma {:induction false} TokensFromUpper(s: string, i: nat)
    requires i <= |s|
    ensures TokensFrom(UpperAll(s), i) == UpperWords(TokensFrom(s, i))
    decreases |s| - i
  {
    var u := UpperAll(s);
    SkipSpacesUpper(s, i);
    var lead := SkipSpaces(s, i);
    if lead < |s| {
      WordEndUpper(s, lead);
      var e := WordEnd(s, lead);
      TokensFromUnfold(s, i);
      TokensFromUnfold(u, i);
      UpperSlice(s, lead, e);
      TokensFromUpper(s, Resume(s, e));
      UpperWordsCons(s[lead..e], TokensFrom(s, Resume(s, e)));
    }
  }

  /** Upper-casing the input upper-cases each token and changes nothing else. */
  lemma TokensUpper(s: string)
    ensures Tokens(UpperAll(s)) == UpperWords(Tokens(s))
  {
    TokensFromUpper(s, 0);
  }
}
