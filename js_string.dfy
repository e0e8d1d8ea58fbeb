/**
 * The few JavaScript string operations the slug rules are built from:
 * `toLowerCase` (on ASCII letters), a global regular-expression replacement of
 * runs of one character class by a single '-', and `trim`.
 */
module JsString {

  /** The character classes that the slug regular expressions replace in runs. */
  datatype CharClass =
    | Whitespace     // `\s`
    | Dash           // `-`
    | NotLowerAlnum  // `[^a-z0-9]`

  predicate IsLowerAlnum(c: char) {
    'a' <= c <= 'z' || '0' <= c <= '9'
  }

  predicate IsUpper(c: char) {
    'A' <= c <= 'Z'
  }

  /** The characters a slug may consist of: `a-z`, `0-9` and `-`. */
  predicate IsSlugChar(c: char) {
    IsLowerAlnum(c) || c == '-'
  }

  predicate IsSlugText(s: string) {
    forall i :: 0 <= i < |s| ==> IsSlugChar(s[i])
  }

  /** No two consecutive '-'. */
  predicate NoDoubleDash(s: string) {
    forall i :: 0 <= i < |s| - 1 ==> !(s[i] == '-' && s[i + 1] == '-')
  }

  /** The ECMAScript WhiteSpace and LineTerminator code points: what `\s` matches and `trim` removes. */
  predicate IsJsSpace(c: char) {
    || c == '\t' || c == '\n' || c == '\U{B}' || c == '\U{C}' || c == '\r' || c == ' '
    || c == '\U{A0}' || c == '\U{1680}' || ('\U{2000}' <= c <= '\U{200A}')
    || c == '\U{2028}' || c == '\U{2029}' || c == '\U{202F}' || c == '\U{205F}'
    || c == '\U{3000}' || c == '\U{FEFF}'
  }

  predicate InClass(c: char, k: CharClass) {
    match k
    case Whitespace => IsJsSpace(c)
    case Dash => c == '-'
    case NotLowerAlnum => !IsLowerAlnum(c)
  }

  /** `toLowerCase` on one character: ASCII capitals become small letters, other characters stay. */
  function LowerChar(c: char): (r: char)
    ensures IsUpper(c) ==> r as int == c as int + 32
    ensures !IsUpper(r)
    ensures IsLowerAlnum(r) <==> IsLowerAlnum(c) || IsUpper(c)
  {
    if IsUpper(c) then (c as int + 32) as char else c
  }

  function ToLowerCase(s: string): string {
    seq(|s|, i requires 0 <= i < |s| => LowerChar(s[i]))
  }

  /**
   * `s.replace(/K+/g, '-')`: every maximal run of characters of class `k` becomes one '-';
   * `inRun` says that the character just before `s` belonged to a run already replaced.
   */
  function ReplaceRuns(s: string, k: CharClass, inRun: bool): string
    decreases |s|
  {
    if s == [] then []
    else if InClass(s[0], k) then (if inRun then "" else "-") + ReplaceRuns(s[1..], k, true)
    else [s[0]] + ReplaceRuns(s[1..], k, false)
  }

  /** Leading whitespace removed (`trimStart`). */
  function TrimStart(s: string): string
    decreases |s|
  {
    if s != [] && IsJsSpace(s[0]) then TrimStart(s[1..]) else s
  }

  /** Trailing whitespace removed (`trimEnd`). */
  function TrimEnd(s: string): string
    decreases |s|
  {
    if s != [] && IsJsSpace(s[|s| - 1]) then TrimEnd(s[..|s| - 1]) else s
  }

  /** `s.trim()`. */
  function Trim(s: string): string {
    TrimEnd(TrimStart(s))
  }

  // ---------------------------------------------------------------------------
  // Properties of the operations

  lemma ToLowerCaseHasNoCapitals(s: string)
    ensures |ToLowerCase(s)| == |s|
    ensures forall i :: 0 <= i < |s| ==> !IsUpper(ToLowerCase(s)[i])
    ensures forall i :: 0 <= i < |s| ==> (IsLowerAlnum(ToLowerCase(s)[i]) <==> IsLowerAlnum(s[i]) || IsUpper(s[i]))
  {
  }

  /** Lowercasing text without capitals changes nothing. */
  lemma ToLowerCaseIdentity(s: string)
    requires forall i :: 0 <= i < |s| ==> !IsUpper(s[i])
    ensures ToLowerCase(s) == s
  {
  }

  /** Every character of the replacement's output is the '-' it inserts or an input character outside the class. */
  lemma {:induction false} ReplaceRunsChars(s: string, k: CharClass, inRun: bool)
    ensures forall c :: c in ReplaceRuns(s, k, inRun) ==> c == '-' || (c in s && !InClass(c, k))
    decreases |s|
  {
    if s != [] {
      ReplaceRunsChars(s[1..], k, InClass(s[0], k));
    }
  }

  /** Every input character outside the class survives the replacement. */
  lemma {:induction false} ReplaceRunsKeeps(s: string, k: CharClass, inRun: bool)
    ensures forall c :: c in s && !InClass(c, k) ==> c in ReplaceRuns(s, k, inRun)
    decreases |s|
  {
    if s != [] {
      ReplaceRunsKeeps(s[1..], k, true);
      ReplaceRunsKeeps(s[1..], k, false);
      assert forall c :: c in s ==> c == s[0] || c in s[1..];
    }
  }

  /** Every class character of `s` is a '-'. */
  predicate ClassOnlyDash(s: string, k: CharClass) {
    forall i :: 0 <= i < |s| && InClass(s[i], k) ==> s[i] == '-'
  }

  /** No two class characters of `s` are adjacent. */
  predicate NoAdjacentClass(s: string, k: CharClass) {
    forall i :: 0 <= i < |s| - 1 ==> !(InClass(s[i], k) && InClass(s[i + 1], k))
  }

  /**
   * When '-' itself belongs to the class, the output holds no class character but '-',
   * and never two class characters in a row; after a run it does not start with one.
   */
  lemma {:induction false} ReplaceRunsShape(s: string, k: CharClass, inRun: bool)
    requires InClass('-', k)
    ensures ClassOnlyDash(ReplaceRuns(s, k, inRun), k)
    ensures NoAdjacentClass(ReplaceRuns(s, k, inRun), k)
    ensures inRun && |ReplaceRuns(s, k, inRun)| > 0 ==> !InClass(ReplaceRuns(s, k, inRun)[0], k)
    decreases |s|
  {
    if s != [] {
      var tail := ReplaceRuns(s[1..], k, InClass(s[0], k));
      ReplaceRunsShape(s[1..], k, InClass(s[0], k));
      var r := ReplaceRuns(s, k, inRun);
      var head := if InClass(s[0], k) then (if inRun then "" else "-") else [s[0]];
      assert r == head + tail;
      forall i | 0 <= i < |r| - 1
        ensures !(InClass(r[i], k) && InClass(r[i + 1], k))
      {
        if i >= |head| {
          assert r[i] == tail[i - |head|] && r[i + 1] == tail[i + 1 - |head|];
        }
      }
    }
  }

  /** Text whose class characters are lone '-'s is its own replacement. */
  lemma {:induction false} ReplaceRunsIdentity(s: string, k: CharClass, inRun: bool)
    requires ClassOnlyDash(s, k) && NoAdjacentClass(s, k)
    requires inRun && |s| > 0 ==> !InClass(s[0], k)
    ensures ReplaceRuns(s, k, inRun) == s
    decreases |s|
  {
    if s != [] {
      ReplaceRunsIdentity(s[1..], k, InClass(s[0], k));
      assert s == [s[0]] + s[1..];
    }
  }

  /** Text made only of class characters is replaced by one '-' at most. */
  lemma {:induction false} ReplaceRunsAllInClass(s: string, k: CharClass, inRun: bool)
    requires forall i :: 0 <= i < |s| ==> InClass(s[i], k)
    ensures ReplaceRuns(s, k, inRun) == if s == [] || inRun then "" else "-"
    decreases |s|
  {
    if s != [] {
      ReplaceRunsAllInClass(s[1..], k, true);
    }
  }

  // ---------------------------------------------------------------------------
  // Words: what a slug keeps of its title

  /**
   * The maximal runs of `a-z` and `0-9` in `s`, in order; `word` is the run that
   * was already open before `s`.
   */
  function Words(s: string, word: string): seq<string>
    decreases |s|
  {
    if s == [] then (if word == [] then [] else [word])
    else if IsLowerAlnum(s[0]) then Words(s[1..], word + [s[0]])
    else (if word == [] then [] else [word]) + Words(s[1..], [])
  }

  /**
   * Replacing runs of a class without letters or digits keeps the words, in order
   * and each as it was: only the separators between them change.
   */
  lemma {:induction false} ReplaceRunsWords(s: string, k: CharClass, inRun: bool, word: string)
    requires forall c :: InClass(c, k) ==> !IsLowerAlnum(c)
    requires inRun ==> word == []
    ensures Words(ReplaceRuns(s, k, inRun), word) == Words(s, word)
    decreases |s|
  {
    if s != [] {
      var r := ReplaceRuns(s, k, inRun);
      if InClass(s[0], k) {
        assert !IsLowerAlnum(s[0]);
        ReplaceRunsWords(s[1..], k, true, []);
        if !inRun {
          assert r == "-" + ReplaceRuns(s[1..], k, true);
          assert r[0] == '-' && r[1..] == ReplaceRuns(s[1..], k, true);
        } else {
          assert r == ReplaceRuns(s[1..], k, true);
        }
      } else if IsLowerAlnum(s[0]) {
        ReplaceRunsWords(s[1..], k, false, word + [s[0]]);
        assert r[1..] == ReplaceRuns(s[1..], k, false);
      } else {
        ReplaceRunsWords(s[1..], k, false, []);
        assert r[1..] == ReplaceRuns(s[1..], k, false);
      }
    }
  }

  /** A '-' at the end separates nothing: dropping it keeps the words. */
  lemma {:induction false} WordsDropDash(s: string, word: string)
    ensures Words(s + "-", word) == Words(s, word)
    decreases |s|
  {
    if s == [] {
      assert ([] + "-")[1..] == [];
    } else {
      assert (s + "-")[1..] == s[1..] + "-";
      WordsDropDash(s[1..], word + [s[0]]);
      WordsDropDash(s[1..], []);
    }
  }

  /** The words joined by single '-'. */
  function JoinDashes(words: seq<string>): string
    decreases |words|
  {
    if words == [] then []
    else if |words| == 1 then words[0]
    else words[0] + "-" + JoinDashes(words[1..])
  }

  /**
   * Slug text without '--' and without a trailing '-' is its words joined by '-'
   * (here after the open `word`, which it must not start with a '-' if empty).
   */
  lemma {:induction false} JoinedWords(s: string, word: string)
    requires IsSlugText(s) && NoDoubleDash(s)
    requires |s| > 0 ==> s[|s| - 1] != '-'
    requires forall i :: 0 <= i < |word| ==> IsLowerAlnum(word[i])
    requires word == [] && |s| > 0 ==> s[0] != '-'
    ensures word + s == JoinDashes(Words(s, word))
    decreases |s|
  {
    if s == [] {
      assert word + s == word;
    } else if IsLowerAlnum(s[0]) {
      JoinedWords(s[1..], word + [s[0]]);
      assert word + s == (word + [s[0]]) + s[1..];
    } else {
      var rest := s[1..];
      assert s[0] == '-' && |rest| > 0 && rest[0] != '-';
      JoinedWords(rest, []);
      var ws := Words(rest, []);
      assert ws != [];
      assert JoinDashes([word] + ws) == word + "-" + JoinDashes(ws) by {
        assert ([word] + ws)[1..] == ws;
      }
      assert word + s == word + "-" + rest;
    }
  }

  /** `trim` changes nothing in text without whitespace. */
  lemma TrimIdentity(s: string)
    requires forall i :: 0 <= i < |s| ==> !IsJsSpace(s[i])
    ensures Trim(s) == s
  {
  }
}
