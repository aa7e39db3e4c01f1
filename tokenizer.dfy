/**
  The tokenizer, `preprocess`: lowercase the text, turn every maximal run of
  characters outside [a-z0-9] into one space, split on whitespace.
  Lowercasing is modelled over ASCII letters only.
*/
module Tokenizer {
  import opened Seqs

  /** A token as the tokenizer returns it. */
  type Token = string

  predicate IsAsciiUpper(c: char) { 'A' <= c <= 'Z' }

  /** The character class [a-z0-9] of the regular expression. */
  predicate IsWordChar(c: char) { 'a' <= c <= 'z' || '0' <= c <= '9' }

  predicate NotWordChar(c: char) { !IsWordChar(c) }

  predicate IsAsciiAlnum(c: char) { IsAsciiUpper(c) || IsWordChar(c) }

  /** The ASCII characters that str.split() treats as whitespace. */
  predicate IsSpace(c: char) { c == ' ' || '\t' <= c <= '\r' || '\U{1C}' <= c <= '\U{1F}' }

  /** str.lower() on one character, ASCII letters only. */
  function Lower(c: char): (r: char)
    ensures IsWordChar(r) <==> IsAsciiAlnum(c)
    ensures IsAsciiUpper(c) ==> r as int - c as int == 'a' as int - 'A' as int
    ensures !IsAsciiUpper(c) ==> r == c
  {
    if IsAsciiUpper(c) then (c as int + ('a' as int - 'A' as int)) as char else c
  }

  /** str.lower() on a whole text. */
  function LowerAll(text: string): (r: string)
    ensures |r| == |text|
    ensures forall i :: 0 <= i < |text| ==> r[i] == Lower(text[i])
  {
    seq(|text|, i requires 0 <= i < |text| => Lower(text[i]))
  }

  /**
    re.sub(r'[^a-z0-9]+', ' ', s), scanned left to right. `inRun` says that the
    character before `s` was outside [a-z0-9] and its run has already been
    replaced by a space.
  */
  function CollapseFrom(s: string, inRun: bool): (r: string)
    ensures forall i :: 0 <= i < |r| ==> IsWordChar(r[i]) || r[i] == ' '
    ensures forall i :: 0 <= i < |r| - 1 ==> IsWordChar(r[i]) || IsWordChar(r[i + 1])
    ensures inRun && |r| > 0 ==> IsWordChar(r[0])
    ensures (forall i :: 0 <= i < |s| ==> IsWordChar(s[i])) ==> r == s
    ensures Kept(r, NotWordChar) == Kept(s, NotWordChar)
    decreases |s|
  {
    if s == [] then []
    else if IsWordChar(s[0]) then
      var tail := CollapseFrom(s[1..], false);
      assert ([s[0]] + tail)[1..] == tail;
      [s[0]] + tail
    else if inRun then CollapseFrom(s[1..], true)
    else
      var tail := CollapseFrom(s[1..], true);
      assert ([' '] + tail)[1..] == tail;
      [' '] + tail
  }

  /**
    re.sub(r'[^a-z0-9]+', ' ', s): only [a-z0-9] and single spaces remain,
    the word characters are kept in order, and only the empty text collapses
    to the empty text.
  */
  function Collapse(s: string): (r: string)
    ensures forall i :: 0 <= i < |r| ==> IsWordChar(r[i]) || r[i] == ' '
    ensures forall i :: 0 <= i < |r| - 1 ==> IsWordChar(r[i]) || IsWordChar(r[i + 1])
    ensures Kept(r, NotWordChar) == Kept(s, NotWordChar)
    ensures r == [] <==> s == []
  {
    CollapseFrom(s, false)
  }

  function Flush(cur: string): seq<string>
  {
    if cur == [] then [] else [cur]
  }

  /**
    The maximal runs of characters that are not separators, left to right;
    `cur` is the run read so far and not yet closed by a separator.
  */
  function Runs(s: string, isSep: char -> bool, cur: string): seq<string>
    decreases |s|
  {
    if s == [] then Flush(cur)
    else if isSep(s[0]) then Flush(cur) + Runs(s[1..], isSep, [])
    else Runs(s[1..], isSep, cur + [s[0]])
  }

  /**
    str.split() with no argument: non-empty fields free of whitespace that,
    joined, are the text's non-whitespace characters in order.
  */
  function Split(s: string): (fields: seq<string>)
    ensures forall k :: 0 <= k < |fields| ==> |fields[k]| > 0
    ensures forall k, j :: 0 <= k < |fields| && 0 <= j < |fields[k]| ==> !IsSpace(fields[k][j])
    ensures Flatten(fields) == Kept(s, IsSpace)
  {
    RunsShape(s, IsSpace, []);
    RunsFlatten(s, IsSpace, []);
    Runs(s, IsSpace, [])
  }

  /**
    preprocess(text): the maximal [a-z0-9] runs of the lowercased text, each
    non-empty and made of [a-z0-9] only.
  */
  function Preprocess(text: string): (tokens: seq<Token>)
    ensures tokens == AlnumRuns(LowerAll(text))
    ensures forall k :: 0 <= k < |tokens| ==> |tokens[k]| > 0
    ensures forall k, j :: 0 <= k < |tokens| && 0 <= j < |tokens[k]| ==> IsWordChar(tokens[k][j])
  {
    CollapseThenSplit(LowerAll(text), false, []);
    RunsShape(LowerAll(text), NotWordChar, []);
    Split(Collapse(LowerAll(text)))
  }

  /** Reference definition: the maximal runs of [a-z0-9] in a text. */
  function AlnumRuns(s: string): seq<string>
  {
    Runs(s, NotWordChar, [])
  }

  /** The characters of `s` that are not separators, in order. */
  function Kept(s: string, isSep: char -> bool): string
  {
    if s == [] then [] else (if isSep(s[0]) then [] else [s[0]]) + Kept(s[1..], isSep)
  }

  // ---------------------------------------------------------------------
  // Collapsing and then splitting on whitespace is splitting on non-word runs.

  lemma {:induction false} CollapseThenSplit(s: string, inRun: bool, cur: string)
    requires inRun ==> cur == []
    ensures Runs(CollapseFrom(s, inRun), IsSpace, cur) == Runs(s, NotWordChar, cur)
    decreases |s|
  {
    if s == [] {
    } else if IsWordChar(s[0]) {
      var r := [s[0]] + CollapseFrom(s[1..], false);
      assert r[0] == s[0] && r[1..] == CollapseFrom(s[1..], false);
      CollapseThenSplit(s[1..], false, cur + [s[0]]);
    } else if inRun {
      CollapseThenSplit(s[1..], true, []);
    } else {
      var r := [' '] + CollapseFrom(s[1..], true);
      assert r[0] == ' ' && r[1..] == CollapseFrom(s[1..], true);
      CollapseThenSplit(s[1..], true, []);
    }
  }


  // ---------------------------------------------------------------------
  // Properties of Runs.

  lemma {:induction false} RunsShape(s: string, isSep: char -> bool, cur: string)
    requires forall j :: 0 <= j < |cur| ==> !isSep(cur[j])
    ensures forall k :: 0 <= k < |Runs(s, isSep, cur)| ==> |Runs(s, isSep, cur)[k]| > 0
    ensures forall k, j :: 0 <= k < |Runs(s, isSep, cur)| && 0 <= j < |Runs(s, isSep, cur)[k]| ==>
      !isSep(Runs(s, isSep, cur)[k][j])
    decreases |s|
  {
    if s == [] {
    } else if isSep(s[0]) {
      RunsShape(s[1..], isSep, []);
    } else {
      RunsShape(s[1..], isSep, cur + [s[0]]);
    }
  }

  /** A text without separators, after the pending run, closes as one run. */
  lemma {:induction false} RunsWhole(s: string, isSep: char -> bool, cur: string)
    requires forall j :: 0 <= j < |s| ==> !isSep(s[j])
    ensures Runs(s, isSep, cur) == Flush(cur + s)
    decreases |s|
  {
    if s == [] {
      assert cur + s == cur;
    } else {
      assert forall j :: 0 <= j < |s[1..]| ==> s[1..][j] == s[j + 1];
      RunsWhole(s[1..], isSep, cur + [s[0]]);
      assert cur + [s[0]] + s[1..] == cur + s;
    }
  }

  /** A separator closes the pending run: the runs on either side of it are listed one after the other. */
  lemma {:induction false} RunsCut(a: string, c: char, b: string, isSep: char -> bool, cur: string)
    requires isSep(c)
    ensures Runs(a + [c] + b, isSep, cur) == Runs(a, isSep, cur) + Runs(b, isSep, [])
    decreases |a|
  {
    var s := a + [c] + b;
    if a == [] {
      assert s[0] == c && s[1..] == b;
    } else {
      assert s[0] == a[0] && s[1..] == a[1..] + [c] + b;
      if isSep(a[0]) {
        RunsCut(a[1..], c, b, isSep, []);
      } else {
        RunsCut(a[1..], c, b, isSep, cur + [a[0]]);
      }
    }
  }

  lemma {:induction false} RunsFlatten(s: string, isSep: char -> bool, cur: string)
    ensures Flatten(Runs(s, isSep, cur)) == cur + Kept(s, isSep)
    decreases |s|
  {
    if s == [] {
      assert Flatten(Flush(cur)) == cur by {
        if cur != [] { assert Flatten([cur]) == cur + Flatten([cur][1..]); }
      }
    } else if isSep(s[0]) {
      RunsFlatten(s[1..], isSep, []);
      FlattenConcat(Flush(cur), Runs(s[1..], isSep, []));
      assert Flatten(Flush(cur)) == cur by {
        if cur != [] { assert Flatten([cur]) == cur + Flatten([cur][1..]); }
      }
    } else {
      RunsFlatten(s[1..], isSep, cur + [s[0]]);
    }
  }

  lemma {:induction false} KeptEmpty(s: string, isSep: char -> bool)
    ensures Kept(s, isSep) == [] <==> forall i :: 0 <= i < |s| ==> isSep(s[i])
  {
    if s != [] {
      KeptEmpty(s[1..], isSep);
      assert forall i :: 1 <= i < |s| ==> s[i] == s[1..][i - 1];
    }
  }

  // ---------------------------------------------------------------------
  // What preprocess promises.

  /** A non-empty text of ASCII letters and digits only is one token, lowercased. */
  lemma PreprocessWord(text: string)
    requires text != [] && forall i :: 0 <= i < |text| ==> IsAsciiAlnum(text[i])
    ensures Preprocess(text) == [LowerAll(text)]
  {
    RunsWhole(LowerAll(text), NotWordChar, []);
    assert [] + LowerAll(text) == LowerAll(text);
  }

  /**
    A character that is not an ASCII letter or digit separates tokens: the
    tokens of the text around it are those of each side, in order. With
    PreprocessWord and Preprocess("") == [] this fixes preprocess on every text.
  */
  lemma PreprocessCut(a: string, c: char, b: string)
    requires !IsAsciiAlnum(c)
    ensures Preprocess(a + [c] + b) == Preprocess(a) + Preprocess(b)
  {
    assert LowerAll(a + [c] + b) == LowerAll(a) + [Lower(c)] + LowerAll(b);
    RunsCut(LowerAll(a), Lower(c), LowerAll(b), NotWordChar, []);
  }

  /** No word character is lost or added: the tokens joined are the [a-z0-9] characters of the lowered text. */
  lemma TokensKeepWordChars(text: string)
    ensures Flatten(Preprocess(text)) == Kept(LowerAll(text), NotWordChar)
  {
    RunsFlatten(LowerAll(text), NotWordChar, []);
  }

  /** The token list is empty exactly when the text has no ASCII letter or digit. */
  lemma NoTokensIffNoAlnum(text: string)
    ensures Preprocess(text) == [] <==> forall i :: 0 <= i < |text| ==> !IsAsciiAlnum(text[i])
  {
    var tokens := Preprocess(text);
    var lowered := LowerAll(text);
    TokensKeepWordChars(text);
    KeptEmpty(lowered, NotWordChar);
    if tokens != [] {
      assert Flatten(tokens) == tokens[0] + Flatten(tokens[1..]);
      assert |Flatten(tokens)| > 0;
    }
    assert (forall i :: 0 <= i < |text| ==> !IsAsciiAlnum(text[i]))
       <==> (forall i :: 0 <= i < |lowered| ==> NotWordChar(lowered[i]));
  }
}
