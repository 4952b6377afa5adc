/** `s.replace(/\bWORD\b/gi, REPLACEMENT)` for a literal word, as ECMA-262 section 22.2
    (RegExp objects) defines it in non-Unicode mode, and the word-level view of a string
    that explains what a chain of such replacements does.

    Matching: `\b` holds between two positions whose characters differ in IsWordChar
    (the ends of the string count as non-word), and the `i` flag compares characters
    after Canonicalize. The patterns used are ASCII, and Canonicalize never maps a
    character at or above 128 to one below it, so the ASCII upper-casing below decides
    every comparison against a pattern exactly. The `g` flag scans left to right, resumes
    after each match and never lets two matches overlap; the context of every `\b` test
    is the ORIGINAL string, not the text already replaced. */
module WordRegExp {
  import Js

  /** IsWordChar: [A-Za-z0-9_]. */
  predicate IsWordChar(c: char) {
    ('a' <= c <= 'z') || ('A' <= c <= 'Z') || ('0' <= c <= '9') || c == '_'
  }

  /** Canonicalize for ignore-case matching, on the characters where it matters here. */
  function Canonicalize(c: char): char {
    if 'a' <= c <= 'z' then (c as int - 32) as char else c
  }

  /** A character that matches a word character case-insensitively is a word character. */
  lemma CanonicalizeKeepsWordChars(a: char, b: char)
    requires Canonicalize(a) == Canonicalize(b) && IsWordChar(b)
    ensures IsWordChar(a)
  {
  }

  /** Two strings that a case-insensitive literal regexp cannot tell apart. */
  predicate SameIgnoringCase(u: string, w: string) {
    |u| == |w| &&
    (u == [] || (Canonicalize(u[0]) == Canonicalize(w[0]) && SameIgnoringCase(u[1..], w[1..])))
  }

  lemma {:induction false} SameIgnoringCaseAt(u: string, w: string, i: nat)
    requires SameIgnoringCase(u, w) && i < |u|
    ensures |w| == |u| && Canonicalize(u[i]) == Canonicalize(w[i])
  {
    if i > 0 {
      SameIgnoringCaseAt(u[1..], w[1..], i - 1);
    }
  }

  /** A non-empty run of word characters. */
  predicate IsWord(w: string) {
    |w| > 0 && forall i :: 0 <= i < |w| ==> IsWordChar(w[i])
  }

  /** `\b` at the position whose preceding character has word-ness `prevWord`
      and from which the string continues with `rest`. */
  predicate AtBoundary(prevWord: bool, rest: string) {
    prevWord != (rest != [] && IsWordChar(rest[0]))
  }

  /** `/\bw\b/i` matches at the start of `t`. */
  predicate MatchesHere(prevWord: bool, t: string, w: string)
    requires |w| > 0
  {
    && |w| <= |t|
    && AtBoundary(prevWord, t)
    && SameIgnoringCase(t[..|w|], w)
    && AtBoundary(IsWordChar(t[|w| - 1]), t[|w|..])
  }

  /** The global replace from one position on: `prevWord` is the word-ness of the
      original character before `t`. */
  function Scan(prevWord: bool, t: string, w: string, rep: string): string
    requires |w| > 0
    decreases |t|
  {
    if t == [] then []
    else if MatchesHere(prevWord, t, w) then rep + Scan(IsWordChar(t[|w| - 1]), t[|w|..], w, rep)
    else [t[0]] + Scan(IsWordChar(t[0]), t[1..], w, rep)
  }

  /** `s.replace(/\bw\b/gi, rep)` for a replacement without `$`: the GetSubstitution
      operation of ECMA-262 gives `$&`, `$'` and the like a meaning, and `rep` is
      inserted as it is here (no replacement in the program contains `$`). For a pattern
      made of word characters this replaces exactly the whole words of `s` equal to `w`
      up to case, and nothing else: the word-level substitution of the one rule. */
  function ReplaceWord(s: string, w: string, rep: string): (r: string)
    requires |w| > 0
    ensures IsWord(w) ==> r == Simultaneous(s, [Rule(w, rep)])
  {
    if IsWord(w) then
      LexSound(s);
      ScanIsSubstitution(false, Lex(s), w, rep);
      Scan(false, s, w, rep)
    else
      Scan(false, s, w, rep)
  }

  // ---------------------------------------------------------------------------
  // The word-level view: a string is a sequence of maximal word runs and single
  // non-word characters.

  datatype Atom = Word(chars: string) | Sep(c: char)

  function Text(a: Atom): string {
    match a
    case Word(u) => u
    case Sep(c) => [c]
  }

  function Concat(atoms: seq<Atom>): string {
    if atoms == [] then [] else Text(atoms[0]) + Concat(atoms[1..])
  }

  predicate AtomOk(a: Atom) {
    match a
    case Word(u) => IsWord(u)
    case Sep(c) => !IsWordChar(c)
  }

  /** Every word atom is a maximal run: no two word atoms are adjacent. */
  predicate WellFormed(atoms: seq<Atom>) {
    atoms == [] ||
    (AtomOk(atoms[0]) && WellFormed(atoms[1..]) &&
     (atoms[0].Word? && |atoms| > 1 ==> atoms[1].Sep?))
  }

  /** The number of word characters `s` starts with. */
  function RunLength(s: string): (n: nat)
    ensures n <= |s|
    ensures forall i :: 0 <= i < n ==> IsWordChar(s[i])
    ensures n < |s| ==> !IsWordChar(s[n])
  {
    if s == [] || !IsWordChar(s[0]) then 0 else 1 + RunLength(s[1..])
  }

  /** Splits a string into its atoms. */
  function Lex(s: string): (atoms: seq<Atom>)
    decreases |s|
  {
    if s == [] then []
    else if !IsWordChar(s[0]) then [Sep(s[0])] + Lex(s[1..])
    else
      var n := RunLength(s);
      [Word(s[..n])] + Lex(s[n..])
  }

  lemma {:induction false} ConcatAppend(xs: seq<Atom>, ys: seq<Atom>)
    ensures Concat(xs + ys) == Concat(xs) + Concat(ys)
  {
    if xs == [] {
      assert xs + ys == ys;
    } else {
      var zs := xs + ys;
      assert zs[0] == xs[0];
      assert zs[1..] == xs[1..] + ys;
      ConcatAppend(xs[1..], ys);
      calc {
        Concat(zs);
        Text(xs[0]) + Concat(xs[1..] + ys);
        Text(xs[0]) + (Concat(xs[1..]) + Concat(ys));
        (Text(xs[0]) + Concat(xs[1..])) + Concat(ys);
      }
    }
  }

  /** Lexing loses nothing. */
  lemma {:induction false} LexConcatBack(s: string)
    ensures Concat(Lex(s)) == s
    decreases |s|
  {
    if s != [] {
      var atoms := Lex(s);
      var n := if IsWordChar(s[0]) then RunLength(s) else 1;
      var head := if IsWordChar(s[0]) then Word(s[..n]) else Sep(s[0]);
      assert atoms == [head] + Lex(s[n..]);
      assert atoms[0] == head && atoms[1..] == Lex(s[n..]);
      assert Text(head) == s[..n];
      LexConcatBack(s[n..]);
      assert Concat(atoms) == s[..n] + s[n..];
      assert s == s[..n] + s[n..];
    }
  }

  /** A string that starts with a separator lexes to that separator first. */
  lemma LexStartsWithSep(s: string)
    requires s != [] && !IsWordChar(s[0])
    ensures Lex(s) != [] && Lex(s)[0] == Sep(s[0])
  {
  }

  /** Lexing yields maximal word runs and separators. */
  lemma {:induction false} LexWellFormed(s: string)
    ensures WellFormed(Lex(s))
    decreases |s|
  {
    if s != [] {
      if !IsWordChar(s[0]) {
        LexWellFormed(s[1..]);
        assert Lex(s)[1..] == Lex(s[1..]);
      } else {
        var n := RunLength(s);
        LexWellFormed(s[n..]);
        assert Lex(s)[1..] == Lex(s[n..]);
        if n < |s| { LexStartsWithSep(s[n..]); }
      }
    }
  }

  lemma LexSound(s: string)
    ensures WellFormed(Lex(s)) && Concat(Lex(s)) == s
  {
    LexConcatBack(s);
    LexWellFormed(s);
  }

  /** A run of word characters lexes to a single word atom. */
  lemma LexOfWord(u: string)
    requires IsWord(u)
    ensures Lex(u) == [Word(u)]
  {
    RunLengthOfWord(u, []);
    assert u + [] == u;
    assert u[..|u|] == u && u[|u|..] == [];
  }

  /** A well-formed atom sequence lexes back to itself. */
  lemma {:induction false} LexConcat(atoms: seq<Atom>)
    requires WellFormed(atoms)
    ensures Lex(Concat(atoms)) == atoms
  {
    if atoms != [] {
      var rest := atoms[1..];
      var s := Concat(atoms);
      LexConcat(rest);
      match atoms[0]
      case Sep(c) =>
        assert s[1..] == Concat(rest);
      case Word(u) =>
        assert s == u + Concat(rest);
        if rest != [] {
          assert Concat(rest)[0] == rest[0].c;
        }
        RunLengthOfWord(u, Concat(rest));
        assert s[..|u|] == u && s[|u|..] == Concat(rest);
    }
  }

  lemma {:induction false} RunLengthOfWord(u: string, rest: string)
    requires forall i :: 0 <= i < |u| ==> IsWordChar(u[i])
    requires rest == [] || !IsWordChar(rest[0])
    ensures RunLength(u + rest) == |u|
  {
    if u != [] {
      assert (u + rest)[1..] == u[1..] + rest;
      RunLengthOfWord(u[1..], rest);
    }
  }

  // ---------------------------------------------------------------------------
  // Substitution rules, applied one after another (as the source does) or all at
  // once on the atoms (what the chain means).

  datatype Rule = Rule(word: string, replacement: string)

  predicate RulesOk(rules: seq<Rule>) {
    forall k :: 0 <= k < |rules| ==> IsWord(rules[k].word)
  }

  /** The rules applied in order, each a `replace(/\bWORD\b/gi, REPLACEMENT)`. */
  function ApplyRules(s: string, rules: seq<Rule>): string
    requires RulesOk(rules)
    decreases |rules|
  {
    if rules == [] then s
    else ApplyRules(ReplaceWord(s, rules[0].word, rules[0].replacement), rules[1..])
  }

  /** The atoms that one word becomes: the replacement of the first rule whose
      word it equals ignoring case, or the word itself. */
  function Substitute(u: string, rules: seq<Rule>): seq<Atom> {
    if rules == [] then [Word(u)]
    else if SameIgnoringCase(u, rules[0].word) then Lex(rules[0].replacement)
    else Substitute(u, rules[1..])
  }

  function SubstituteAtom(a: Atom, rules: seq<Rule>): seq<Atom> {
    match a
    case Sep(c) => [Sep(c)]
    case Word(u) => Substitute(u, rules)
  }

  /** Simultaneous substitution on atoms: every atom is rewritten once, independently. */
  function SubstituteAll(atoms: seq<Atom>, rules: seq<Rule>): seq<Atom> {
    if atoms == [] then [] else SubstituteAtom(atoms[0], rules) + SubstituteAll(atoms[1..], rules)
  }

  /** Simultaneous substitution on text. */
  function Simultaneous(s: string, rules: seq<Rule>): string {
    Concat(SubstituteAll(Lex(s), rules))
  }

  /** No word atom of `atoms` is a whole word that one of `rules` replaces. */
  predicate Untouched(atoms: seq<Atom>, rules: seq<Rule>) {
    forall k, j :: 0 <= k < |atoms| && 0 <= j < |rules| && atoms[k].Word? ==>
      !SameIgnoringCase(atoms[k].chars, rules[j].word)
  }

  /** No rule's replacement contains a whole word that a LATER rule replaces. */
  predicate NoRewrite(rules: seq<Rule>) {
    rules == [] ||
    (Untouched(Lex(rules[0].replacement), rules[1..]) && NoRewrite(rules[1..]))
  }

  /** No rule's replacement contains a whole word that ANY rule replaces. */
  predicate Closed(rules: seq<Rule>) {
    forall i :: 0 <= i < |rules| ==> Untouched(Lex(rules[i].replacement), rules)
  }

  /** Closed rules in particular never rewrite an earlier rule's output. */
  lemma {:induction false} ClosedHasNoRewrite(rules: seq<Rule>)
    requires Closed(rules)
    ensures NoRewrite(rules)
  {
    if rules != [] {
      var rest := rules[1..];
      assert Untouched(Lex(rules[0].replacement), rest) by {
        assert Untouched(Lex(rules[0].replacement), rules);
        forall k, j | 0 <= k < |Lex(rules[0].replacement)| && 0 <= j < |rest| && Lex(rules[0].replacement)[k].Word?
          ensures !SameIgnoringCase(Lex(rules[0].replacement)[k].chars, rest[j].word)
        {
          assert rest[j] == rules[j + 1];
        }
      }
      assert Closed(rest) by {
        forall i | 0 <= i < |rest| ensures Untouched(Lex(rest[i].replacement), rest) {
          assert rest[i] == rules[i + 1];
          assert Untouched(Lex(rules[i + 1].replacement), rules);
          forall k, j | 0 <= k < |Lex(rest[i].replacement)| && 0 <= j < |rest| && Lex(rest[i].replacement)[k].Word?
            ensures !SameIgnoringCase(Lex(rest[i].replacement)[k].chars, rest[j].word)
          {
            assert rest[j] == rules[j + 1];
          }
        }
      }
      ClosedHasNoRewrite(rest);
    }
  }

  /** `w` occurs in `s` as a whole word, in any case. */
  predicate OccursAsWord(s: string, w: string) {
    exists k :: 0 <= k < |Lex(s)| && Lex(s)[k].Word? && SameIgnoringCase(Lex(s)[k].chars, w)
  }

  lemma {:induction false} SubstituteAllAppend(xs: seq<Atom>, ys: seq<Atom>, rules: seq<Rule>)
    ensures SubstituteAll(xs + ys, rules) == SubstituteAll(xs, rules) + SubstituteAll(ys, rules)
  {
    if xs == [] {
      assert xs + ys == ys;
    } else {
      var zs := xs + ys;
      assert zs[0] == xs[0];
      assert zs[1..] == xs[1..] + ys;
      SubstituteAllAppend(xs[1..], ys, rules);
      calc {
        SubstituteAll(zs, rules);
        SubstituteAtom(xs[0], rules) + SubstituteAll(xs[1..] + ys, rules);
        SubstituteAtom(xs[0], rules) + (SubstituteAll(xs[1..], rules) + SubstituteAll(ys, rules));
      }
    }
  }

  lemma {:induction false} WellFormedAppend(xs: seq<Atom>, ys: seq<Atom>)
    requires WellFormed(xs) && WellFormed(ys)
    requires xs != [] && ys != [] ==> !(xs[|xs| - 1].Word? && ys[0].Word?)
    ensures WellFormed(xs + ys)
  {
    if xs == [] {
      assert xs + ys == ys;
    } else {
      var zs := xs + ys;
      assert zs[0] == xs[0];
      assert zs[1..] == xs[1..] + ys;
      WellFormedAppend(xs[1..], ys);
      if |zs| > 1 {
        if |xs| > 1 { assert zs[1] == xs[1]; } else { assert zs[1] == ys[0]; }
      }
    }
  }

  lemma {:induction false} SubstituteWellFormed(u: string, rules: seq<Rule>)
    requires IsWord(u)
    ensures WellFormed(Substitute(u, rules))
  {
    if rules != [] {
      if SameIgnoringCase(u, rules[0].word) {
        LexSound(rules[0].replacement);
      } else {
        SubstituteWellFormed(u, rules[1..]);
      }
    }
  }

  /** Substitution leaves separators where they are. */
  lemma SubstituteAllKeepsSep(atoms: seq<Atom>, rules: seq<Rule>)
    requires atoms != [] && atoms[0].Sep?
    ensures SubstituteAll(atoms, rules) != [] && SubstituteAll(atoms, rules)[0] == atoms[0]
  {
  }

  /** Simultaneous substitution keeps word atoms maximal. */
  lemma {:induction false} SubstituteAllWellFormed(atoms: seq<Atom>, rules: seq<Rule>)
    requires WellFormed(atoms)
    ensures WellFormed(SubstituteAll(atoms, rules))
  {
    if atoms != [] {
      var head := SubstituteAtom(atoms[0], rules);
      var tail := SubstituteAll(atoms[1..], rules);
      SubstituteAllWellFormed(atoms[1..], rules);
      match atoms[0]
      case Sep(c) =>
        WellFormedAppend(head, tail);
      case Word(u) =>
        SubstituteWellFormed(u, rules);
        if atoms[1..] != [] {
          SubstituteAllKeepsSep(atoms[1..], rules);
        }
        WellFormedAppend(head, tail);
    }
  }

  /** Inside a word run the scan finds no `\b`, so no match can start there. */
  lemma {:induction false} ScanSkipsWordInterior(v: string, rest: string, w: string, rep: string)
    requires |w| > 0
    requires forall i :: 0 <= i < |v| ==> IsWordChar(v[i])
    ensures Scan(true, v + rest, w, rep) == v + Scan(true, rest, w, rep)
    decreases |v|
  {
    if v == [] {
      assert v + rest == rest;
    } else {
      var t := v + rest;
      assert t[0] == v[0] && IsWordChar(t[0]);
      assert !MatchesHere(true, t, w);
      assert t[1..] == v[1..] + rest;
      ScanSkipsWordInterior(v[1..], rest, w, rep);
      calc {
        Scan(true, t, w, rep);
        [v[0]] + Scan(true, v[1..] + rest, w, rep);
        [v[0]] + (v[1..] + Scan(true, rest, w, rep));
        { assert [v[0]] + v[1..] == v; }
        v + Scan(true, rest, w, rep);
      }
    }
  }

  /** A separator never starts a match of a word. */
  lemma ScanAtSep(prevWord: bool, c: char, rest: string, w: string, rep: string)
    requires !IsWordChar(c) && IsWord(w)
    ensures Scan(prevWord, [c] + rest, w, rep) == [c] + Scan(false, rest, w, rep)
  {
    var t := [c] + rest;
    assert t[0] == c && t[1..] == rest;
    if MatchesHere(prevWord, t, w) {
      assert Canonicalize(t[..|w|][0]) == Canonicalize(w[0]);
      CanonicalizeKeepsWordChars(c, w[0]);
    }
  }

  /** A whole word equal to the pattern ignoring case is a match. */
  lemma ScanAtMatchingWord(u: string, rest: string, w: string, rep: string)
    requires IsWord(u) && IsWord(w) && SameIgnoringCase(u, w)
    requires rest == [] || !IsWordChar(rest[0])
    ensures Scan(false, u + rest, w, rep) == rep + Scan(true, rest, w, rep)
  {
    var t := u + rest;
    assert t[0] == u[0];
    assert t[..|w|] == u && t[|w|..] == rest;
    assert t[|w| - 1] == u[|u| - 1];
    assert MatchesHere(false, t, w);
  }

  /** A whole word that differs from the pattern is copied unchanged. */
  lemma ScanAtOtherWord(u: string, rest: string, w: string, rep: string)
    requires IsWord(u) && IsWord(w) && !SameIgnoringCase(u, w)
    requires rest == [] || !IsWordChar(rest[0])
    ensures Scan(false, u + rest, w, rep) == u + Scan(true, rest, w, rep)
  {
    var t := u + rest;
    assert t[0] == u[0];
    if MatchesHere(false, t, w) && |w| > |u| {
      assert t[..|w|][|u|] == t[|u|] == rest[0];
      SameIgnoringCaseAt(t[..|w|], w, |u|);
      CanonicalizeKeepsWordChars(t[|u|], w[|u|]);
    }
    assert t[1..] == u[1..] + rest;
    ScanSkipsWordInterior(u[1..], rest, w, rep);
    assert [u[0]] + u[1..] == u;
  }

  /** One global whole-word replace is simultaneous substitution with one rule. */
  lemma {:induction false} ScanIsSubstitution(prevWord: bool, atoms: seq<Atom>, w: string, rep: string)
    requires WellFormed(atoms) && IsWord(w)
    requires prevWord ==> atoms == [] || atoms[0].Sep?
    ensures Scan(prevWord, Concat(atoms), w, rep) == Concat(SubstituteAll(atoms, [Rule(w, rep)]))
    decreases |atoms|
  {
    var rules := [Rule(w, rep)];
    if atoms != [] {
      var rest := atoms[1..];
      var head := SubstituteAtom(atoms[0], rules);
      assert SubstituteAll(atoms, rules) == head + SubstituteAll(rest, rules);
      ConcatAppend(head, SubstituteAll(rest, rules));
      match atoms[0]
      case Sep(c) =>
        ScanAtSep(prevWord, c, Concat(rest), w, rep);
        ScanIsSubstitution(false, rest, w, rep);
      case Word(u) =>
        assert rest != [] ==> Concat(rest)[0] == rest[0].c;
        ScanIsSubstitution(true, rest, w, rep);
        if SameIgnoringCase(u, w) {
          ScanAtMatchingWord(u, Concat(rest), w, rep);
          LexSound(rep);
        } else {
          ScanAtOtherWord(u, Concat(rest), w, rep);
          assert rules[0].word == w && rules[1..] == [];
          assert Substitute(u, rules) == Substitute(u, []);
          assert head == [Word(u)];
          assert Concat(head) == u + Concat([]);
          assert Concat(atoms) == u + Concat(rest);
        }
    }
  }

  /** A word no rule replaces stays itself. */
  lemma {:induction false} SubstituteUntouched(u: string, rules: seq<Rule>)
    requires forall j :: 0 <= j < |rules| ==> !SameIgnoringCase(u, rules[j].word)
    ensures Substitute(u, rules) == [Word(u)]
  {
    if rules != [] {
      SubstituteUntouched(u, rules[1..]);
    }
  }

  /** Substitution changes nothing in atoms that no rule touches. */
  lemma {:induction false} SubstituteAllUntouched(atoms: seq<Atom>, rules: seq<Rule>)
    requires Untouched(atoms, rules)
    ensures SubstituteAll(atoms, rules) == atoms
  {
    if atoms != [] {
      assert Untouched(atoms[1..], rules) by {
        forall k, j | 0 <= k < |atoms[1..]| && 0 <= j < |rules| && atoms[1..][k].Word?
          ensures !SameIgnoringCase(atoms[1..][k].chars, rules[j].word)
        {
          assert atoms[1..][k] == atoms[k + 1];
        }
      }
      SubstituteAllUntouched(atoms[1..], rules);
      if atoms[0].Word? {
        SubstituteUntouched(atoms[0].chars, rules);
      }
    }
  }

  /** Applying one rule and then the rest equals applying them all at once,
      provided the first rule's replacement contains no word the rest replace. */
  lemma {:induction false} SubstituteCompose(atoms: seq<Atom>, r: Rule, rest: seq<Rule>)
    requires Untouched(Lex(r.replacement), rest)
    ensures SubstituteAll(SubstituteAll(atoms, [r]), rest) == SubstituteAll(atoms, [r] + rest)
  {
    if atoms != [] {
      var rules := [r] + rest;
      assert rules[1..] == rest;
      SubstituteAllAppend(SubstituteAtom(atoms[0], [r]), SubstituteAll(atoms[1..], [r]), rest);
      SubstituteCompose(atoms[1..], r, rest);
      match atoms[0]
      case Sep(c) =>
      case Word(u) =>
        if SameIgnoringCase(u, r.word) {
          SubstituteAllUntouched(Lex(r.replacement), rest);
        } else {
          assert Substitute(u, [r]) == [Word(u)];
          assert SubstituteAll([Word(u)], rest) == Substitute(u, rest) + SubstituteAll([], rest);
        }
    }
  }

  /** Applying the rules one after another equals simultaneous substitution, as long
      as no rule produces a whole word that a later rule would rewrite again. */
  lemma {:induction false} SequentialIsSimultaneousAtoms(atoms: seq<Atom>, rules: seq<Rule>)
    requires WellFormed(atoms) && RulesOk(rules) && NoRewrite(rules)
    ensures ApplyRules(Concat(atoms), rules) == Concat(SubstituteAll(atoms, rules))
    decreases |rules|
  {
    if rules == [] {
      SubstituteAllUntouched(atoms, rules);
    } else {
      var r := rules[0];
      var rest := rules[1..];
      assert [r] + rest == rules;
      ScanIsSubstitution(false, atoms, r.word, r.replacement);
      assert [Rule(r.word, r.replacement)] == [r];
      var next := SubstituteAll(atoms, [r]);
      SubstituteAllWellFormed(atoms, [r]);
      assert RulesOk(rest) by {
        forall k | 0 <= k < |rest| ensures IsWord(rest[k].word) { assert rest[k] == rules[k + 1]; }
      }
      SequentialIsSimultaneousAtoms(next, rest);
      SubstituteCompose(atoms, r, rest);
    }
  }

  /** The same on text. */
  lemma SequentialIsSimultaneous(s: string, rules: seq<Rule>)
    requires RulesOk(rules) && NoRewrite(rules)
    ensures ApplyRules(s, rules) == Simultaneous(s, rules)
  {
    LexSound(s);
    SequentialIsSimultaneousAtoms(Lex(s), rules);
  }

  lemma UntouchedAppend(xs: seq<Atom>, ys: seq<Atom>, rules: seq<Rule>)
    requires Untouched(xs, rules) && Untouched(ys, rules)
    ensures Untouched(xs + ys, rules)
  {
    forall k, j | 0 <= k < |xs + ys| && 0 <= j < |rules| && (xs + ys)[k].Word?
      ensures !SameIgnoringCase((xs + ys)[k].chars, rules[j].word)
    {
      if k >= |xs| { assert (xs + ys)[k] == ys[k - |xs|]; }
    }
  }

  /** A word atom becomes a replacement of one of the rules, or stays a word no rule replaces. */
  lemma {:induction false} SubstituteCases(u: string, rules: seq<Rule>)
    ensures (exists i :: 0 <= i < |rules| && SameIgnoringCase(u, rules[i].word) &&
                         Substitute(u, rules) == Lex(rules[i].replacement))
         || ((forall j :: 0 <= j < |rules| ==> !SameIgnoringCase(u, rules[j].word)) &&
             Substitute(u, rules) == [Word(u)])
  {
    if rules != [] && !SameIgnoringCase(u, rules[0].word) {
      SubstituteCases(u, rules[1..]);
      if exists i :: 0 <= i < |rules[1..]| && SameIgnoringCase(u, rules[1..][i].word) &&
                     Substitute(u, rules[1..]) == Lex(rules[1..][i].replacement) {
        var i :| 0 <= i < |rules[1..]| && SameIgnoringCase(u, rules[1..][i].word) &&
                 Substitute(u, rules[1..]) == Lex(rules[1..][i].replacement);
        assert rules[i + 1] == rules[1..][i];
      } else {
        forall j | 0 <= j < |rules| ensures !SameIgnoringCase(u, rules[j].word) {
          if j > 0 { assert rules[j] == rules[1..][j - 1]; }
        }
      }
    } else if rules != [] {
      assert SameIgnoringCase(u, rules[0].word) && Substitute(u, rules) == Lex(rules[0].replacement);
    }
  }

  /** When the rules are closed, nothing substituted contains a word they replace. */
  lemma {:induction false} SubstituteAllLeavesNoRuleWord(atoms: seq<Atom>, rules: seq<Rule>)
    requires Closed(rules)
    ensures Untouched(SubstituteAll(atoms, rules), rules)
  {
    if atoms != [] {
      SubstituteAllLeavesNoRuleWord(atoms[1..], rules);
      match atoms[0]
      case Sep(c) =>
      case Word(u) =>
        SubstituteCases(u, rules);
      UntouchedAppend(SubstituteAtom(atoms[0], rules), SubstituteAll(atoms[1..], rules), rules);
    }
  }

  /** After the chain of replaces no rule's word is left anywhere as a whole word. */
  lemma NoRuleWordSurvives(s: string, rules: seq<Rule>)
    requires RulesOk(rules) && NoRewrite(rules) && Closed(rules)
    ensures forall j :: 0 <= j < |rules| ==> !OccursAsWord(ApplyRules(s, rules), rules[j].word)
  {
    SequentialIsSimultaneous(s, rules);
    LexSound(s);
    var out := SubstituteAll(Lex(s), rules);
    SubstituteAllWellFormed(Lex(s), rules);
    LexConcat(out);
    SubstituteAllLeavesNoRuleWord(Lex(s), rules);
  }

  /** A text none of whose words a rule replaces comes through the chain unchanged:
      only whole-word matches are ever rewritten. */
  lemma UntouchedTextUnchanged(s: string, rules: seq<Rule>)
    requires RulesOk(rules) && NoRewrite(rules)
    requires Untouched(Lex(s), rules)
    ensures ApplyRules(s, rules) == s
  {
    SequentialIsSimultaneous(s, rules);
    SubstituteAllUntouched(Lex(s), rules);
    LexSound(s);
  }

  /** Rules that are closed stay closed when only a prefix of them is applied. */
  lemma ClosedPrefix(rules: seq<Rule>, n: nat)
    requires Closed(rules) && n <= |rules|
    ensures Closed(rules[..n])
  {
    forall i | 0 <= i < n ensures Untouched(Lex(rules[..n][i].replacement), rules[..n]) {
      assert rules[..n][i] == rules[i];
      var atoms := Lex(rules[i].replacement);
      forall k, j | 0 <= k < |atoms| && 0 <= j < n && atoms[k].Word?
        ensures !SameIgnoringCase(atoms[k].chars, rules[..n][j].word)
      {
        assert rules[..n][j] == rules[j];
      }
    }
  }

  lemma {:induction false} SameIgnoringCaseSymmetric(u: string, w: string)
    requires SameIgnoringCase(u, w)
    ensures SameIgnoringCase(w, u)
  {
    if u != [] {
      SameIgnoringCaseSymmetric(u[1..], w[1..]);
    }
  }

  lemma {:induction false} SameIgnoringCaseTransitive(u: string, v: string, w: string)
    requires SameIgnoringCase(u, v) && SameIgnoringCase(v, w)
    ensures SameIgnoringCase(u, w)
  {
    if u != [] {
      SameIgnoringCaseTransitive(u[1..], v[1..], w[1..]);
    }
  }

  /** A word atom no rule replaces is still among the substituted atoms. */
  lemma {:induction false} SubstituteAllKeepsWord(atoms: seq<Atom>, rules: seq<Rule>, k: nat)
    requires k < |atoms| && atoms[k].Word?
    requires forall j :: 0 <= j < |rules| ==> !SameIgnoringCase(atoms[k].chars, rules[j].word)
    ensures exists m :: 0 <= m < |SubstituteAll(atoms, rules)| && SubstituteAll(atoms, rules)[m] == atoms[k]
  {
    var head := SubstituteAtom(atoms[0], rules);
    var tail := SubstituteAll(atoms[1..], rules);
    assert SubstituteAll(atoms, rules) == head + tail;
    if k == 0 {
      SubstituteUntouched(atoms[0].chars, rules);
      assert (head + tail)[0] == atoms[0];
    } else {
      assert atoms[1..][k - 1] == atoms[k];
      SubstituteAllKeepsWord(atoms[1..], rules, k - 1);
      var m :| 0 <= m < |tail| && tail[m] == atoms[k];
      assert (head + tail)[|head| + m] == atoms[k];
    }
  }

  /** A whole word that no rule replaces (in any case) survives the chain of replaces. */
  lemma OtherWordSurvives(s: string, rules: seq<Rule>, w: string)
    requires RulesOk(rules) && NoRewrite(rules)
    requires forall j :: 0 <= j < |rules| ==> !SameIgnoringCase(w, rules[j].word)
    requires OccursAsWord(s, w)
    ensures OccursAsWord(ApplyRules(s, rules), w)
  {
    var atoms := Lex(s);
    var k :| 0 <= k < |atoms| && atoms[k].Word? && SameIgnoringCase(atoms[k].chars, w);
    forall j | 0 <= j < |rules| ensures !SameIgnoringCase(atoms[k].chars, rules[j].word) {
      if SameIgnoringCase(atoms[k].chars, rules[j].word) {
        SameIgnoringCaseSymmetric(atoms[k].chars, w);
        SameIgnoringCaseTransitive(w, atoms[k].chars, rules[j].word);
        assert false;
      }
    }
    SubstituteAllKeepsWord(atoms, rules, k);
    var out := SubstituteAll(atoms, rules);
    var m :| 0 <= m < |out| && out[m] == atoms[k];
    SequentialIsSimultaneous(s, rules);
    LexSound(s);
    SubstituteAllWellFormed(atoms, rules);
    LexConcat(out);
    assert Lex(ApplyRules(s, rules))[m] == atoms[k];
  }

  // ---------------------------------------------------------------------------
  // Text around the substituted words: joining, lower-casing, and rule subsets

  /** Joining two texts with a separator character joins their word views. */
  lemma LexJoin(a: string, c: char, b: string)
    requires !IsWordChar(c)
    ensures Lex(a + [c] + b) == Lex(a) + [Sep(c)] + Lex(b)
  {
    LexSound(a);
    LexSound(b);
    var xs := Lex(a) + [Sep(c)] + Lex(b);
    assert WellFormed([Sep(c)]);
    WellFormedAppend(Lex(a), [Sep(c)]);
    WellFormedAppend(Lex(a) + [Sep(c)], Lex(b));
    ConcatAppend(Lex(a), [Sep(c)]);
    ConcatAppend(Lex(a) + [Sep(c)], Lex(b));
    assert Concat([Sep(c)]) == [c];
    LexConcat(xs);
  }

  /** A text whose words no rule replaces, joined by a separator to another such text,
      still has no word a rule replaces. */
  lemma UntouchedJoin(a: string, c: char, b: string, rules: seq<Rule>)
    requires !IsWordChar(c)
    requires Untouched(Lex(a), rules) && Untouched(Lex(b), rules)
    ensures Untouched(Lex(a + [c] + b), rules)
  {
    LexJoin(a, c, b);
    assert Untouched([Sep(c)], rules);
    UntouchedAppend(Lex(a), [Sep(c)], rules);
    UntouchedAppend(Lex(a) + [Sep(c)], Lex(b), rules);
  }

  /** A single word that no rule replaces. */
  lemma UntouchedWord(u: string, rules: seq<Rule>)
    requires IsWord(u)
    requires forall j :: 0 <= j < |rules| ==> !SameIgnoringCase(u, rules[j].word)
    ensures Untouched(Lex(u), rules)
  {
    LexOfWord(u);
  }

  /** Text untouched by a list of rules is untouched by any prefix of it. */
  lemma UntouchedByPrefix(atoms: seq<Atom>, rules: seq<Rule>, n: nat)
    requires Untouched(atoms, rules) && n <= |rules|
    ensures Untouched(atoms, rules[..n])
  {
    forall k, j | 0 <= k < |atoms| && 0 <= j < n && atoms[k].Word?
      ensures !SameIgnoringCase(atoms[k].chars, rules[..n][j].word)
    {
      assert rules[..n][j] == rules[j];
    }
  }

  /** For closed rules, the substituted text has no word a rule replaces. */
  lemma SimultaneousUntouched(s: string, rules: seq<Rule>)
    requires Closed(rules)
    ensures Untouched(Lex(Simultaneous(s, rules)), rules)
  {
    LexSound(s);
    var out := SubstituteAll(Lex(s), rules);
    SubstituteAllWellFormed(Lex(s), rules);
    LexConcat(out);
    SubstituteAllLeavesNoRuleWord(Lex(s), rules);
  }

  /** Text with no word a rule replaces has no such word standing alone. */
  lemma UntouchedHasNoRuleWord(s: string, rules: seq<Rule>)
    requires Untouched(Lex(s), rules)
    ensures forall j :: 0 <= j < |rules| ==> !OccursAsWord(s, rules[j].word)
  {
  }

  /** ASCII lower-casing keeps word characters apart from the rest and does not change
      what a case-insensitive comparison sees. */
  lemma LowerCharKeeps(c: char)
    ensures IsWordChar(Js.LowerChar(c)) == IsWordChar(c)
    ensures Canonicalize(Js.LowerChar(c)) == Canonicalize(c)
  {
  }

  lemma {:induction false} SameIgnoringCaseToLower(u: string)
    ensures SameIgnoringCase(Js.ToLower(u), u)
    decreases |u|
  {
    if u != [] {
      LowerCharKeeps(u[0]);
      assert Js.ToLower(u)[1..] == Js.ToLower(u[1..]);
      SameIgnoringCaseToLower(u[1..]);
    }
  }

  lemma {:induction false} RunLengthToLower(s: string)
    ensures RunLength(Js.ToLower(s)) == RunLength(s)
    decreases |s|
  {
    if s != [] {
      LowerCharKeeps(s[0]);
      assert Js.ToLower(s)[1..] == Js.ToLower(s[1..]);
      RunLengthToLower(s[1..]);
    }
  }

  /** The atoms after the first of a text whose words no rule replaces. */
  lemma UntouchedRest(xs: seq<Atom>, ys: seq<Atom>, rules: seq<Rule>)
    requires Untouched(xs + ys, rules)
    ensures Untouched(ys, rules)
  {
    forall k, j | 0 <= k < |ys| && 0 <= j < |rules| && ys[k].Word?
      ensures !SameIgnoringCase(ys[k].chars, rules[j].word)
    {
      assert (xs + ys)[|xs| + k] == ys[k];
    }
  }

  /** A word no rule replaces, lower-cased, is still no word a rule replaces. */
  lemma LowerWordUntouched(u: string, rules: seq<Rule>)
    requires forall j :: 0 <= j < |rules| ==> !SameIgnoringCase(u, rules[j].word)
    ensures forall j :: 0 <= j < |rules| ==> !SameIgnoringCase(Js.ToLower(u), rules[j].word)
  {
    forall j | 0 <= j < |rules| ensures !SameIgnoringCase(Js.ToLower(u), rules[j].word) {
      if SameIgnoringCase(Js.ToLower(u), rules[j].word) {
        SameIgnoringCaseToLower(u);
        SameIgnoringCaseSymmetric(Js.ToLower(u), u);
        SameIgnoringCaseTransitive(u, Js.ToLower(u), rules[j].word);
        assert false;
      }
    }
  }

  /** Lower-casing a text whose words no rule replaces gives such a text again. */
  lemma {:induction false} UntouchedToLower(s: string, rules: seq<Rule>)
    requires Untouched(Lex(s), rules)
    ensures Untouched(Lex(Js.ToLower(s)), rules)
    decreases |s|
  {
    var t := Js.ToLower(s);
    if s != [] {
      LowerCharKeeps(s[0]);
      var n := if IsWordChar(s[0]) then RunLength(s) else 1;
      var head := if IsWordChar(s[0]) then Word(t[..n]) else Sep(t[0]);
      RunLengthToLower(s);
      assert t[n..] == Js.ToLower(s[n..]);
      assert Lex(s) == [Lex(s)[0]] + Lex(s[n..]);
      assert Lex(t) == [head] + Lex(Js.ToLower(s[n..]));
      UntouchedRest([Lex(s)[0]], Lex(s[n..]), rules);
      UntouchedToLower(s[n..], rules);
      if IsWordChar(s[0]) {
        assert t[..n] == Js.ToLower(s[..n]);
        assert Lex(s)[0] == Word(s[..n]);
        LowerWordUntouched(s[..n], rules);
      }
      UntouchedAppend([head], Lex(Js.ToLower(s[n..])), rules);
    }
  }

  /** A phrase put in front of a text with a space, or after it with ", " and
      lower-cased, adds no word a rule replaces when neither part has one. */
  lemma DecoratedUntouched(phrase: string, body: string, rules: seq<Rule>)
    requires Untouched(Lex(phrase), rules) && Untouched(Lex(body), rules)
    ensures Untouched(Lex(phrase + " " + body), rules)
    ensures Untouched(Lex(body + ", " + Js.ToLower(phrase)), rules)
  {
    assert phrase + " " + body == phrase + [' '] + body;
    UntouchedJoin(phrase, ' ', body, rules);
    var lower := Js.ToLower(phrase);
    UntouchedToLower(phrase, rules);
    assert Lex([]) == [];
    UntouchedJoin([], ' ', lower, rules);
    assert [] + [' '] + lower == " " + lower;
    UntouchedJoin(body, ',', " " + lower, rules);
    assert body + [','] + (" " + lower) == body + ", " + lower;
  }
}
