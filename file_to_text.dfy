/**
  The upload route that turns a PDF or Word document into text.

  `ProcessPdfText` is the clean-up applied to the text a PDF parser returns:
  six regular-expression replacements, each modelled by its own function,
  then a line filter and a final trim. `Truncate` caps the extracted text,
  and `Handle` is the order of checks the route applies to a request before
  it either answers with the extracted text or forwards it upstream.
  The parsing libraries and the upstream call are not modelled: what a
  library returned for the file is a parameter.
 */
module FileToText {
  import opened Wrappers
  import opened Sequences
  import opened JsString

  // ---------------------------------------------------------------------------
  // Character patterns

  const Nbsp: char := '\U{00A0}'
  const ReplacementChar: char := '\U{FFFD}'

  /** No `a` is directly followed by `b`. */
  predicate NoPair(s: string, a: char, b: char) {
    forall i :: 0 <= i < |s| - 1 ==> !(s[i] == a && s[i + 1] == b)
  }

  /** A character in front of text without the pair adds none, unless it is `a` before `b`. */
  lemma NoPairCons(c: char, rest: string, a: char, b: char)
    requires NoPair(rest, a, b)
    requires c == a && rest != [] ==> rest[0] != b
    ensures NoPair([c] + rest, a, b)
  {
  }

  /** A character after text without the pair adds none, unless it is `b` after `a`. */
  lemma NoPairSnoc(init: string, c: char, a: char, b: char)
    requires NoPair(init, a, b)
    requires c == b && init != [] ==> init[|init| - 1] != a
    ensures NoPair(init + [c], a, b)
  {
  }

  /** No three newlines in a row. */
  predicate NoTripleNewline(s: string) {
    forall i :: 0 <= i < |s| - 2 ==> !(s[i] == '\n' && s[i + 1] == '\n' && s[i + 2] == '\n')
  }

  /** `k` copies of `c`. */
  function Repeat(c: char, k: nat): (r: string)
    ensures |r| == k && forall i :: 0 <= i < k ==> r[i] == c
  {
    if k == 0 then [] else [c] + Repeat(c, k - 1)
  }

  predicate AllBlank(b: string) {
    forall i :: 0 <= i < |b| ==> b[i] == ' ' || b[i] == '\t'
  }

  // ---------------------------------------------------------------------------
  // The six replacements, in the order the route applies them

  /**
    `replace(/[ \t]+/g, ' ')`: every run of spaces and tabs becomes one space.
    `inRun` says a space has just been written for the current run.
   */
  function CollapseBlanks(s: string, inRun: bool): (r: string)
    ensures '\t' !in r
    ensures NoPair(r, ' ', ' ')
    ensures inRun && r != [] ==> r[0] != ' '
    ensures forall c :: c in r ==> c in s || c == ' '
  {
    if s == [] then []
    else if s[0] == ' ' || s[0] == '\t' then
      var head, rest := if inRun then [] else [' '], CollapseBlanks(s[1..], true);
      NoPairCons(' ', rest, ' ', ' ');
      head + rest
    else
      var rest := CollapseBlanks(s[1..], false);
      NoPairCons(s[0], rest, ' ', ' ');
      [s[0]] + rest
  }

  /** Text with no tab and no double space is left as it is. */
  lemma {:induction false} CollapseBlanksFixes(s: string, inRun: bool)
    requires '\t' !in s && NoPair(s, ' ', ' ')
    requires inRun && s != [] ==> s[0] != ' '
    ensures CollapseBlanks(s, inRun) == s
  {
    if s != [] {
      CollapseBlanksFixes(s[1..], s[0] == ' ');
      assert s == [s[0]] + s[1..];
    }
  }

  /** So collapsing twice is collapsing once. */
  lemma CollapseBlanksIdempotent(s: string)
    ensures CollapseBlanks(CollapseBlanks(s, false), false) == CollapseBlanks(s, false)
  {
    CollapseBlanksFixes(CollapseBlanks(s, false), false);
  }

  /** One step of `CollapseBlanks`. */
  lemma CollapseStep(x: char, t: string, inRun: bool)
    ensures var blank := x == ' ' || x == '\t';
      CollapseBlanks([x] + t, inRun)
      == (if blank then (if inRun then [] else [' ']) else [x]) + CollapseBlanks(t, blank)
  {
    assert ([x] + t)[0] == x && ([x] + t)[1..] == t;
  }

  /** Text ending in a character other than a blank ends the run: what follows is collapsed on its own. */
  lemma {:induction false} CollapseBlanksSplit(a: string, t: string, inRun: bool)
    requires a != [] && a[|a| - 1] != ' ' && a[|a| - 1] != '\t'
    ensures CollapseBlanks(a + t, inRun) == CollapseBlanks(a, inRun) + CollapseBlanks(t, false)
  {
    var blank := a[0] == ' ' || a[0] == '\t';
    var head: string := if blank then (if inRun then [] else [' ']) else [a[0]];
    assert CollapseBlanks(a + t, inRun) == head + CollapseBlanks(a[1..] + t, blank) by {
      ConsConcat(a, t);
      CollapseStep(a[0], a[1..] + t, inRun);
    }
    assert CollapseBlanks(a, inRun) == head + CollapseBlanks(a[1..], blank) by {
      ConsConcat(a, []);
      CollapseStep(a[0], a[1..], inRun);
    }
    if |a| == 1 {
      assert a[1..] + t == t && CollapseBlanks(a[1..], blank) == [];
    } else {
      CollapseBlanksSplit(a[1..], t, blank);
      ConcatAssoc(head, CollapseBlanks(a[1..], blank), CollapseBlanks(t, false));
    }
  }

  /** A run of blanks before a character other than a blank gives one space, or none when a space was just written. */
  lemma {:induction false} CollapseBlankRun(b: string, c: string, inRun: bool)
    requires AllBlank(b)
    requires c == [] || (c[0] != ' ' && c[0] != '\t')
    ensures CollapseBlanks(b + c, inRun) == (if inRun || b == [] then [] else [' ']) + CollapseBlanks(c, false)
  {
    if b == [] {
      assert b + c == c;
      if c != [] {
        assert CollapseBlanks(c, inRun) == CollapseBlanks(c, false) by {
          ConsConcat(c, []);
          CollapseStep(c[0], c[1..], inRun);
          CollapseStep(c[0], c[1..], false);
        }
      }
    } else {
      var head: string := if inRun then [] else [' '];
      assert CollapseBlanks(b + c, inRun) == head + CollapseBlanks(b[1..] + c, true) by {
        ConsConcat(b, c);
        CollapseStep(b[0], b[1..] + c, inRun);
      }
      CollapseBlankRun(b[1..], c, true);
    }
  }

  /** The characters other than spaces and tabs are kept, in order. */
  lemma {:induction false} CollapseBlanksKeepsOthers(s: string, inRun: bool)
    ensures Without(CollapseBlanks(s, inRun), {' ', '\t'}) == Without(s, {' ', '\t'})
  {
    if s != [] {
      var blank := s[0] == ' ' || s[0] == '\t';
      var head: string := if blank then (if inRun then [] else [' ']) else [s[0]];
      ConsConcat(s, []);
      CollapseStep(s[0], s[1..], inRun);
      CollapseBlanksKeepsOthers(s[1..], blank);
      WithoutConcat(head, CollapseBlanks(s[1..], blank), {' ', '\t'});
      WithoutConcat([s[0]], s[1..], {' ', '\t'});
    }
  }

  /** Each maximal run of spaces and tabs becomes exactly one space; the text around it is collapsed on its own. */
  lemma CollapseBlanksRun(a: string, b: string, c: string)
    requires a == [] || (a[|a| - 1] != ' ' && a[|a| - 1] != '\t')
    requires b != [] && AllBlank(b)
    requires c == [] || (c[0] != ' ' && c[0] != '\t')
    ensures CollapseBlanks(a + b + c, false) == CollapseBlanks(a, false) + [' '] + CollapseBlanks(c, false)
  {
    var tail := CollapseBlanks(c, false);
    assert CollapseBlanks(b + c, false) == [' '] + tail by {
      CollapseBlankRun(b, c, false);
    }
    assert CollapseBlanks(a + (b + c), false) == CollapseBlanks(a, false) + CollapseBlanks(b + c, false) by {
      if a == [] {
        assert a + (b + c) == b + c;
      } else {
        CollapseBlanksSplit(a, b + c, false);
      }
    }
    ConcatAssoc(a, b, c);
    ConcatAssoc(CollapseBlanks(a, false), [' '], tail);
  }

  /**
    `replace(/\n{3,}/g, '\n\n')`: a run of three or more newlines becomes two.
    `run` counts the newlines of the current run already read.
   */
  function CapNewlines(s: string, run: nat): (r: string)
    ensures NoTripleNewline(r)
    ensures run >= 2 && r != [] ==> r[0] != '\n'
    ensures run == 1 && |r| >= 2 ==> !(r[0] == '\n' && r[1] == '\n')
    ensures forall c :: c in r ==> c in s
  {
    if s == [] then []
    else if s[0] == '\n' then
      var rest := CapNewlines(s[1..], run + 1);
      if run < 2 then
        NoTripleCons('\n', rest);
        ['\n'] + rest
      else rest
    else
      var rest := CapNewlines(s[1..], 0);
      NoTripleCons(s[0], rest);
      [s[0]] + rest
  }

  /** A character in front of text without three newlines in a row adds none, unless it is a newline before two. */
  lemma NoTripleCons(c: char, rest: string)
    requires NoTripleNewline(rest)
    requires c == '\n' && |rest| >= 2 ==> !(rest[0] == '\n' && rest[1] == '\n')
    ensures NoTripleNewline([c] + rest)
  {
  }

  /** Text with no three newlines in a row is left as it is. */
  lemma {:induction false} CapNewlinesFixes(s: string, run: nat)
    requires NoTripleNewline(s)
    requires run >= 2 && s != [] ==> s[0] != '\n'
    requires run == 1 && |s| >= 2 ==> !(s[0] == '\n' && s[1] == '\n')
    ensures CapNewlines(s, run) == s
  {
    if s != [] {
      CapNewlinesFixes(s[1..], if s[0] == '\n' then run + 1 else 0);
      assert s == [s[0]] + s[1..];
    }
  }

  /** One step of `CapNewlines`. */
  lemma CapStep(x: char, t: string, run: nat)
    ensures CapNewlines([x] + t, run)
      == if x == '\n' then (if run < 2 then ['\n'] else []) + CapNewlines(t, run + 1) else [x] + CapNewlines(t, 0)
  {
    assert ([x] + t)[0] == x && ([x] + t)[1..] == t;
  }

  /** Text ending in a character other than a newline ends the run: what follows is capped on its own. */
  lemma {:induction false} CapNewlinesSplit(a: string, t: string, run: nat)
    requires a != [] && a[|a| - 1] != '\n'
    ensures CapNewlines(a + t, run) == CapNewlines(a, run) + CapNewlines(t, 0)
  {
    var next := if a[0] == '\n' then run + 1 else 0;
    var head: string := if a[0] == '\n' then (if run < 2 then ['\n'] else []) else [a[0]];
    assert CapNewlines(a + t, run) == head + CapNewlines(a[1..] + t, next) by {
      ConsConcat(a, t);
      CapStep(a[0], a[1..] + t, run);
    }
    assert CapNewlines(a, run) == head + CapNewlines(a[1..], next) by {
      ConsConcat(a, []);
      CapStep(a[0], a[1..], run);
    }
    if |a| == 1 {
      assert a[1..] + t == t && CapNewlines(a[1..], next) == [];
    } else {
      CapNewlinesSplit(a[1..], t, next);
      ConcatAssoc(head, CapNewlines(a[1..], next), CapNewlines(t, 0));
    }
  }

  /** How many of `k` further newlines survive when `run` of the run were already read. */
  function KeptNewlines(k: nat, run: nat): nat {
    if run >= 2 then 0 else if k <= 2 - run then k else 2 - run
  }

  lemma {:induction false} CapNewlineRun(k: nat, c: string, run: nat)
    requires c == [] || c[0] != '\n'
    ensures CapNewlines(Repeat('\n', k) + c, run) == Repeat('\n', KeptNewlines(k, run)) + CapNewlines(c, 0)
  {
    if k == 0 {
      assert Repeat('\n', k) + c == c;
      if c != [] {
        ConsConcat(c, []);
        CapStep(c[0], c[1..], run);
        CapStep(c[0], c[1..], 0);
      }
    } else {
      var rest := Repeat('\n', k - 1) + c;
      var tail := CapNewlines(c, 0);
      ConcatAssoc(['\n'], Repeat('\n', k - 1), c);
      CapStep('\n', rest, run);
      CapNewlineRun(k - 1, c, run + 1);
      if run < 2 {
        ConcatAssoc(['\n'], Repeat('\n', KeptNewlines(k - 1, run + 1)), tail);
      }
    }
  }

  /** The characters other than newlines are kept, in order. */
  lemma {:induction false} CapNewlinesKeepsOthers(s: string, run: nat)
    ensures Without(CapNewlines(s, run), {'\n'}) == Without(s, {'\n'})
  {
    if s != [] {
      var next := if s[0] == '\n' then run + 1 else 0;
      var head: string := if s[0] == '\n' then (if run < 2 then ['\n'] else []) else [s[0]];
      ConsConcat(s, []);
      CapStep(s[0], s[1..], run);
      CapNewlinesKeepsOthers(s[1..], next);
      WithoutConcat(head, CapNewlines(s[1..], next), {'\n'});
      WithoutConcat([s[0]], s[1..], {'\n'});
    }
  }

  /**
    A maximal run of `k` newlines keeps `min(k, 2)` of them: three or more
    become exactly two and shorter runs stay; the text around it is capped
    on its own.
   */
  lemma CapNewlinesRun(a: string, k: nat, c: string)
    requires a == [] || a[|a| - 1] != '\n'
    requires c == [] || c[0] != '\n'
    ensures CapNewlines(a + Repeat('\n', k) + c, 0) == CapNewlines(a, 0) + Repeat('\n', if k <= 2 then k else 2) + CapNewlines(c, 0)
  {
    var kept := Repeat('\n', if k <= 2 then k else 2);
    CapNewlineRun(k, c, 0);
    ConcatAssoc(a, Repeat('\n', k), c);
    ConcatAssoc(CapNewlines(a, 0), kept, CapNewlines(c, 0));
    if a == [] {
      assert a + (Repeat('\n', k) + c) == Repeat('\n', k) + c;
    } else {
      CapNewlinesSplit(a, Repeat('\n', k) + c, 0);
    }
  }

  /**
    `replace(/\n +/g, '\n')`: the spaces that start a line are dropped.
    `afterNewline` says only spaces stand between the last newline and `s`.
   */
  function DropLeadingSpaces(s: string, afterNewline: bool): (r: string)
    ensures NoPair(r, '\n', ' ')
    ensures afterNewline && r != [] ==> r[0] != ' '
    ensures forall c :: c in r ==> c in s
  {
    if s == [] then []
    else if s[0] == ' ' && afterNewline then DropLeadingSpaces(s[1..], true)
    else
      var rest := DropLeadingSpaces(s[1..], s[0] == '\n');
      NoPairCons(s[0], rest, '\n', ' ');
      [s[0]] + rest
  }

  /** Text where no newline is followed by a space is left as it is. */
  lemma {:induction false} DropLeadingSpacesFixes(s: string, afterNewline: bool)
    requires NoPair(s, '\n', ' ')
    requires afterNewline && s != [] ==> s[0] != ' '
    ensures DropLeadingSpaces(s, afterNewline) == s
  {
    if s != [] {
      DropLeadingSpacesFixes(s[1..], s[0] == '\n');
      assert s == [s[0]] + s[1..];
    }
  }

  /** One step of `DropLeadingSpaces`. */
  lemma DropLeadingStep(x: char, t: string, afterNewline: bool)
    ensures DropLeadingSpaces([x] + t, afterNewline)
         == if x == ' ' && afterNewline then DropLeadingSpaces(t, true) else [x] + DropLeadingSpaces(t, x == '\n')
  {
    assert ([x] + t)[0] == x && ([x] + t)[1..] == t;
  }

  /** Text ending in a character other than a space or newline leaves no line start open: what follows is treated on its own. */
  lemma {:induction false} DropLeadingSplit(a: string, t: string, afterNewline: bool)
    requires a != [] && a[|a| - 1] != ' ' && a[|a| - 1] != '\n'
    ensures DropLeadingSpaces(a + t, afterNewline) == DropLeadingSpaces(a, afterNewline) + DropLeadingSpaces(t, false)
  {
    var dropped := a[0] == ' ' && afterNewline;
    var next := if dropped then true else a[0] == '\n';
    var head: string := if dropped then [] else [a[0]];
    assert DropLeadingSpaces(a + t, afterNewline) == head + DropLeadingSpaces(a[1..] + t, next) by {
      ConsConcat(a, t);
      DropLeadingStep(a[0], a[1..] + t, afterNewline);
    }
    assert DropLeadingSpaces(a, afterNewline) == head + DropLeadingSpaces(a[1..], next) by {
      ConsConcat(a, []);
      DropLeadingStep(a[0], a[1..], afterNewline);
    }
    if |a| == 1 {
      assert a[1..] + t == t && DropLeadingSpaces(a[1..], next) == [];
    } else {
      DropLeadingSplit(a[1..], t, next);
      ConcatAssoc(head, DropLeadingSpaces(a[1..], next), DropLeadingSpaces(t, false));
    }
  }

  lemma {:induction false} DropLeadingRun(k: nat, c: string, afterNewline: bool)
    requires c == [] || c[0] != ' '
    ensures DropLeadingSpaces(Repeat(' ', k) + c, afterNewline)
         == (if afterNewline then [] else Repeat(' ', k)) + DropLeadingSpaces(c, false)
  {
    if k == 0 {
      assert Repeat(' ', k) + c == c;
      if c != [] {
        ConsConcat(c, []);
        DropLeadingStep(c[0], c[1..], afterNewline);
        DropLeadingStep(c[0], c[1..], false);
      }
    } else {
      var rest := Repeat(' ', k - 1) + c;
      ConcatAssoc([' '], Repeat(' ', k - 1), c);
      DropLeadingStep(' ', rest, afterNewline);
      DropLeadingRun(k - 1, c, afterNewline);
      if !afterNewline {
        ConcatAssoc([' '], Repeat(' ', k - 1), DropLeadingSpaces(c, false));
      }
    }
  }

  /** The characters other than spaces are kept, in order. */
  lemma {:induction false} DropLeadingKeepsOthers(s: string, afterNewline: bool)
    ensures Without(DropLeadingSpaces(s, afterNewline), {' '}) == Without(s, {' '})
  {
    if s != [] {
      var dropped := s[0] == ' ' && afterNewline;
      var next := if dropped then true else s[0] == '\n';
      var head: string := if dropped then [] else [s[0]];
      ConsConcat(s, []);
      DropLeadingStep(s[0], s[1..], afterNewline);
      DropLeadingKeepsOthers(s[1..], next);
      WithoutConcat(head, DropLeadingSpaces(s[1..], next), {' '});
      WithoutConcat([s[0]], s[1..], {' '});
    }
  }

  /**
    The spaces of a maximal run right after a newline are dropped, and a run
    of spaces after any other character, or at the start, is kept; the text
    around it is treated on its own.
   */
  lemma DropLeadingSpacesRun(a: string, k: nat, c: string)
    requires a == [] || (a[|a| - 1] != ' ' && a[|a| - 1] != '\n')
    requires c == [] || c[0] != ' '
    ensures DropLeadingSpaces(a + ['\n'] + Repeat(' ', k) + c, false)
         == DropLeadingSpaces(a, false) + ['\n'] + DropLeadingSpaces(c, false)
    ensures DropLeadingSpaces(a + Repeat(' ', k) + c, false)
         == DropLeadingSpaces(a, false) + Repeat(' ', k) + DropLeadingSpaces(c, false)
  {
    DropLeadingBreak(a, k, c);
    DropLeadingKept(a, k, c);
  }

  lemma DropLeadingBreak(a: string, k: nat, c: string)
    requires a == [] || (a[|a| - 1] != ' ' && a[|a| - 1] != '\n')
    requires c == [] || c[0] != ' '
    ensures DropLeadingSpaces(a + ['\n'] + Repeat(' ', k) + c, false)
         == DropLeadingSpaces(a, false) + ['\n'] + DropLeadingSpaces(c, false)
  {
    DropLeadingNewline(a, Repeat(' ', k) + c);
    DropLeadingRun(k, c, true);
    ConcatAssoc(a + ['\n'], Repeat(' ', k), c);
    assert [] + DropLeadingSpaces(c, false) == DropLeadingSpaces(c, false);
  }

  /** A newline after text that does not end in a space or a newline starts a new line. */
  lemma DropLeadingNewline(a: string, t: string)
    requires a == [] || (a[|a| - 1] != ' ' && a[|a| - 1] != '\n')
    ensures DropLeadingSpaces(a + ['\n'] + t, false) == DropLeadingSpaces(a, false) + ['\n'] + DropLeadingSpaces(t, true)
  {
    var line := ['\n'] + t;
    assert DropLeadingSpaces(line, false) == ['\n'] + DropLeadingSpaces(t, true) by {
      DropLeadingStep('\n', t, false);
    }
    assert DropLeadingSpaces(a + line, false) == DropLeadingSpaces(a, false) + DropLeadingSpaces(line, false) by {
      if a == [] {
        assert a + line == line;
      } else {
        DropLeadingSplit(a, line, false);
      }
    }
    ConcatAssoc(a, ['\n'], t);
    ConcatAssoc(DropLeadingSpaces(a, false), ['\n'], DropLeadingSpaces(t, true));
  }

  lemma DropLeadingKept(a: string, k: nat, c: string)
    requires a == [] || (a[|a| - 1] != ' ' && a[|a| - 1] != '\n')
    requires c == [] || c[0] != ' '
    ensures DropLeadingSpaces(a + Repeat(' ', k) + c, false)
         == DropLeadingSpaces(a, false) + Repeat(' ', k) + DropLeadingSpaces(c, false)
  {
    var spaces := Repeat(' ', k) + c;
    DropLeadingRun(k, c, false);
    ConcatAssoc(a, Repeat(' ', k), c);
    ConcatAssoc(DropLeadingSpaces(a, false), Repeat(' ', k), DropLeadingSpaces(c, false));
    if a == [] {
      assert a + spaces == spaces;
    } else {
      DropLeadingSplit(a, spaces, false);
    }
  }

  /**
    `replace(/ +\n/g, '\n')`: the spaces that end a line are dropped. Read
    from the back: `beforeNewline` says only spaces stand between `s` and the
    next newline.
   */
  function DropTrailingSpaces(s: string, beforeNewline: bool): (r: string)
    ensures NoPair(r, ' ', '\n')
    ensures beforeNewline && r != [] ==> r[|r| - 1] != ' '
    ensures forall c :: c in r ==> c in s
  {
    if s == [] then []
    else
      var init, last := s[..|s| - 1], s[|s| - 1];
      assert s == init + [last];
      if last == ' ' && beforeNewline then DropTrailingSpaces(init, true)
      else
        var kept := DropTrailingSpaces(init, last == '\n');
        NoPairSnoc(kept, last, ' ', '\n');
        kept + [last]
  }

  /** Text where no space is followed by a newline is left as it is. */
  lemma {:induction false} DropTrailingSpacesFixes(s: string, beforeNewline: bool)
    requires NoPair(s, ' ', '\n')
    requires beforeNewline && s != [] ==> s[|s| - 1] != ' '
    ensures DropTrailingSpaces(s, beforeNewline) == s
  {
    if s != [] {
      var init, last := s[..|s| - 1], s[|s| - 1];
      assert NoPair(init, ' ', '\n');
      DropTrailingSpacesFixes(init, last == '\n');
      assert !(last == ' ' && beforeNewline);
      assert DropTrailingSpaces(s, beforeNewline) == DropTrailingSpaces(init, last == '\n') + [last];
      assert s == init + [last];
    }
  }

  /** One step of `DropTrailingSpaces`, from the back. */
  lemma DropTrailingStep(t: string, x: char, beforeNewline: bool)
    ensures DropTrailingSpaces(t + [x], beforeNewline)
         == if x == ' ' && beforeNewline then DropTrailingSpaces(t, true) else DropTrailingSpaces(t, x == '\n') + [x]
  {
    var s := t + [x];
    assert s[..|s| - 1] == t && s[|s| - 1] == x;
  }

  /** Text starting with a character other than a space or newline leaves no line end open: what precedes it is treated on its own. */
  lemma {:induction false} DropTrailingSplit(a: string, t: string, beforeNewline: bool)
    requires t != [] && t[0] != ' ' && t[0] != '\n'
    ensures DropTrailingSpaces(a + t, beforeNewline) == DropTrailingSpaces(a, false) + DropTrailingSpaces(t, beforeNewline)
  {
    var init, last := t[..|t| - 1], t[|t| - 1];
    var dropped := last == ' ' && beforeNewline;
    var next := if dropped then true else last == '\n';
    var tail: string := if dropped then [] else [last];
    SnocConcat(a, t);
    DropTrailingStep(a + init, last, beforeNewline);
    DropTrailingStep(init, last, beforeNewline);
    if |t| == 1 {
      assert a + init == a && DropTrailingSpaces(init, next) == [];
    } else {
      DropTrailingSplit(a, init, next);
      ConcatAssoc(DropTrailingSpaces(a, false), DropTrailingSpaces(init, next), tail);
    }
  }

  lemma {:induction false} DropTrailingRun(a: string, k: nat, beforeNewline: bool)
    requires a == [] || a[|a| - 1] != ' '
    ensures DropTrailingSpaces(a + Repeat(' ', k), beforeNewline)
         == DropTrailingSpaces(a, false) + (if beforeNewline then [] else Repeat(' ', k))
  {
    if k == 0 {
      assert a + Repeat(' ', k) == a;
      if a != [] {
        SnocConcat([], a);
        DropTrailingStep(a[..|a| - 1], a[|a| - 1], beforeNewline);
        DropTrailingStep(a[..|a| - 1], a[|a| - 1], false);
      }
    } else {
      var spaces := Repeat(' ', k - 1);
      assert Repeat(' ', k) == spaces + [' '] by {
        RepeatSnoc(' ', k);
      }
      ConcatAssoc(a, spaces, [' ']);
      DropTrailingStep(a + spaces, ' ', beforeNewline);
      DropTrailingRun(a, k - 1, beforeNewline);
      if !beforeNewline {
        ConcatAssoc(DropTrailingSpaces(a, false), spaces, [' ']);
      }
    }
  }

  lemma RepeatSnoc(c: char, k: nat)
    requires k > 0
    ensures Repeat(c, k) == Repeat(c, k - 1) + [c]
  {
  }

  /** The characters other than spaces are kept, in order. */
  lemma {:induction false} DropTrailingKeepsOthers(s: string, beforeNewline: bool)
    ensures Without(DropTrailingSpaces(s, beforeNewline), {' '}) == Without(s, {' '})
  {
    if s != [] {
      var init, last := s[..|s| - 1], s[|s| - 1];
      var dropped := last == ' ' && beforeNewline;
      var next := if dropped then true else last == '\n';
      var tail: string := if dropped then [] else [last];
      SnocConcat([], s);
      DropTrailingStep(init, last, beforeNewline);
      DropTrailingKeepsOthers(init, next);
      WithoutConcat(DropTrailingSpaces(init, next), tail, {' '});
      WithoutConcat(init, [last], {' '});
    }
  }

  /**
    The spaces of a maximal run right before a newline are dropped, and a
    run of spaces before any other character, or at the end, is kept; the
    text around it is treated on its own.
   */
  lemma DropTrailingSpacesRun(a: string, k: nat, c: string)
    requires a == [] || a[|a| - 1] != ' '
    requires c == [] || (c[0] != ' ' && c[0] != '\n')
    ensures DropTrailingSpaces(a + Repeat(' ', k) + ['\n'] + c, false)
         == DropTrailingSpaces(a, false) + ['\n'] + DropTrailingSpaces(c, false)
    ensures DropTrailingSpaces(a + Repeat(' ', k) + c, false)
         == DropTrailingSpaces(a, false) + Repeat(' ', k) + DropTrailingSpaces(c, false)
  {
    DropTrailingBreak(a, k, c);
    DropTrailingKept(a, k, c);
  }

  lemma DropTrailingBreak(a: string, k: nat, c: string)
    requires a == [] || a[|a| - 1] != ' '
    requires c == [] || (c[0] != ' ' && c[0] != '\n')
    ensures DropTrailingSpaces(a + Repeat(' ', k) + ['\n'] + c, false)
         == DropTrailingSpaces(a, false) + ['\n'] + DropTrailingSpaces(c, false)
  {
    var line := a + Repeat(' ', k) + ['\n'];
    assert DropTrailingSpaces(line, false) == DropTrailingSpaces(a, false) + ['\n'] by {
      DropTrailingStep(a + Repeat(' ', k), '\n', false);
      DropTrailingRun(a, k, true);
    }
    if c == [] {
      assert line + c == line;
      assert DropTrailingSpaces(c, false) == [];
    } else {
      DropTrailingSplit(line, c, false);
    }
  }

  lemma DropTrailingKept(a: string, k: nat, c: string)
    requires a == [] || a[|a| - 1] != ' '
    requires c == [] || (c[0] != ' ' && c[0] != '\n')
    ensures DropTrailingSpaces(a + Repeat(' ', k) + c, false)
         == DropTrailingSpaces(a, false) + Repeat(' ', k) + DropTrailingSpaces(c, false)
  {
    var spaced := a + Repeat(' ', k);
    DropTrailingRun(a, k, false);
    if c == [] {
      assert spaced + c == spaced;
      assert DropTrailingSpaces(c, false) == [];
    } else {
      DropTrailingSplit(spaced, c, false);
    }
  }

  /** `replace(/\uFFFD/g, '')`: every replacement character is removed, nothing else, and the rest keep their order. */
  function RemoveReplacementChars(s: string): (r: string)
    ensures forall c :: c in r <==> c in s && c != ReplacementChar
    ensures forall c :: multiset(r)[c] == if c == ReplacementChar then 0 else multiset(s)[c]
    ensures IsSubsequence(r, s)
  {
    Filter(s, c => c != ReplacementChar)
  }

  /** `replace(/\u00A0/g, ' ')`: every no-break space becomes a space, position by position. */
  function NbspToSpace(s: string): (r: string)
    ensures |r| == |s|
    ensures forall i :: 0 <= i < |s| ==> r[i] == (if s[i] == Nbsp then ' ' else s[i])
  {
    seq(|s|, i requires 0 <= i < |s| => if s[i] == Nbsp then ' ' else s[i])
  }

  lemma NbspGone(s: string)
    ensures Nbsp !in NbspToSpace(s)
    ensures forall c :: c in NbspToSpace(s) ==> c in s || c == ' '
  {
    var r := NbspToSpace(s);
    forall c | c in r
      ensures c != Nbsp && (c in s || c == ' ')
    {
      var i :| 0 <= i < |r| && r[i] == c;
      assert s[i] in s;
    }
  }

  /** Steps 1 to 6 of the clean-up: the replacements, before lines are considered. */
  function CleanChars(raw: string): string {
    var collapsed := CollapseBlanks(raw, false);
    var capped := CapNewlines(collapsed, 0);
    var unindented := DropLeadingSpaces(capped, false);
    var unpadded := DropTrailingSpaces(unindented, false);
    NbspToSpace(RemoveReplacementChars(unpadded))
  }

  /** After the replacements no tab, replacement character or no-break space is left. */
  lemma CleanCharsDrops(raw: string)
    ensures '\t' !in CleanChars(raw) && ReplacementChar !in CleanChars(raw) && Nbsp !in CleanChars(raw)
  {
    var collapsed := CollapseBlanks(raw, false);
    var capped := CapNewlines(collapsed, 0);
    var unindented := DropLeadingSpaces(capped, false);
    var unpadded := DropTrailingSpaces(unindented, false);
    var removed := RemoveReplacementChars(unpadded);
    assert '\t' !in removed;
    NbspGone(removed);
  }

  // ---------------------------------------------------------------------------
  // Lines

  /** A line the filter keeps: trimmed, at least three characters and not a page number. */
  predicate GoodLine(line: string) {
    |Trim(line)| >= 3 && !AllDigits(Trim(line))
  }

  /** `lines.filter(...)` with the two tests of the route: every good line, as often as it occurs, in order. */
  function KeepLines(lines: seq<string>): (r: seq<string>)
    ensures forall k :: 0 <= k < |r| ==> GoodLine(r[k])
    ensures forall l :: l in r <==> l in lines && GoodLine(l)
    ensures forall l :: multiset(r)[l] == if GoodLine(l) then multiset(lines)[l] else 0
    ensures IsSubsequence(r, lines)
  {
    Filter(lines, GoodLine)
  }

  /** The kept lines as they come out of the final trim: the first loses its indentation, the last its tail. */
  function EdgeTrimmed(lines: seq<string>): (r: seq<string>)
    requires |lines| >= 1
    ensures |r| == |lines|
  {
    var n := |lines|;
    seq(n, k requires 0 <= k < n =>
      if n == 1 then Trim(lines[0])
      else if k == 0 then TrimStart(lines[0])
      else if k == n - 1 then TrimEnd(lines[k])
      else lines[k])
  }

  /** `processPdfText`. */
  function ProcessPdfText(raw: string): string {
    if raw == [] then []
    else Trim(Join(KeepLines(Split(CleanChars(raw), '\n')), '\n'))
  }

  /** An empty input gives an empty output. */
  lemma ProcessEmpty()
    ensures ProcessPdfText("") == ""
  {
  }

  lemma TrimEndAfterLine(head: string, last: string)
    requires !AllWhitespace(last)
    ensures TrimEnd(head + ['\n'] + last) == head + ['\n'] + TrimEnd(last)
    ensures !AllWhitespace(head + ['\n'] + last)
  {
    TrimEndKeepsHead(head + ['\n'], last);
    NotAllWhitespaceAfter(head + ['\n'], last);
  }

  lemma TrimEndJoin(lines: seq<string>)
    requires |lines| >= 1 && !AllWhitespace(lines[|lines| - 1])
    ensures TrimEnd(Join(lines, '\n')) == Join(lines[..|lines| - 1] + [TrimEnd(lines[|lines| - 1])], '\n')
    ensures !AllWhitespace(Join(lines, '\n'))
  {
    var n := |lines|;
    var last := lines[n - 1];
    var edited := lines[..n - 1] + [TrimEnd(last)];
    if n == 1 {
      assert Join(lines, '\n') == last;
      assert Join(edited, '\n') == TrimEnd(last);
    } else {
      var head := Join(lines[..n - 1], '\n');
      JoinLast(lines, '\n');
      JoinLast(edited, '\n');
      assert edited[..n - 1] == lines[..n - 1];
      assert Join(edited, '\n') == head + ['\n'] + TrimEnd(last);
      TrimEndAfterLine(head, last);
    }
  }

  lemma TrimJoinHead(first: string, restJoined: string)
    requires !AllWhitespace(first) && !AllWhitespace(restJoined)
    ensures Trim(first + ['\n'] + restJoined) == TrimStart(first) + ['\n'] + TrimEnd(restJoined)
  {
    var tail := ['\n'] + restJoined;
    assert Trim(first + tail) == TrimStart(first) + TrimEnd(tail) by {
      NotAllWhitespaceAfter(['\n'], restJoined);
      TrimOfConcat(first, tail);
    }
    assert TrimEnd(tail) == ['\n'] + TrimEnd(restJoined) by {
      TrimEndKeepsHead(['\n'], restJoined);
    }
    ConcatAssoc(first, ['\n'], restJoined);
    ConcatAssoc(TrimStart(first), ['\n'], TrimEnd(restJoined));
  }

  lemma EdgeTrimmedTail(lines: seq<string>)
    requires |lines| >= 2
    ensures EdgeTrimmed(lines)[0] == TrimStart(lines[0])
    ensures EdgeTrimmed(lines)[1..] == lines[1..|lines| - 1] + [TrimEnd(lines[|lines| - 1])]
  {
    var e := EdgeTrimmed(lines);
    var t := lines[1..|lines| - 1] + [TrimEnd(lines[|lines| - 1])];
    assert forall j :: 0 <= j < |t| ==> e[1..][j] == t[j];
  }

  /** Trimming the joined lines trims only the outer two lines. */
  lemma TrimJoin(lines: seq<string>)
    requires |lines| >= 1 && !AllWhitespace(lines[0]) && !AllWhitespace(lines[|lines| - 1])
    ensures Trim(Join(lines, '\n')) == Join(EdgeTrimmed(lines), '\n')
  {
    var n := |lines|;
    if n == 1 {
      assert EdgeTrimmed(lines) == [Trim(lines[0])];
    } else {
      TrimJoinMany(lines);
    }
  }

  lemma TrimJoinMany(lines: seq<string>)
    requires |lines| >= 2 && !AllWhitespace(lines[0]) && !AllWhitespace(lines[|lines| - 1])
    ensures Trim(Join(lines, '\n')) == Join(EdgeTrimmed(lines), '\n')
  {
    var n := |lines|;
    var rest := lines[1..];
    var edited := lines[1..n - 1] + [TrimEnd(lines[n - 1])];
    assert Trim(Join(lines, '\n')) == TrimStart(lines[0]) + ['\n'] + Join(edited, '\n') by {
      TrimEndJoin(rest);
      TrimJoinHead(lines[0], Join(rest, '\n'));
      assert rest[..|rest| - 1] == lines[1..n - 1];
      assert Join(lines, '\n') == lines[0] + ['\n'] + Join(rest, '\n');
    }
    assert Join(EdgeTrimmed(lines), '\n') == TrimStart(lines[0]) + ['\n'] + Join(edited, '\n') by {
      EdgeTrimmedTail(lines);
    }
  }

  lemma GoodAfterTrimStart(line: string)
    requires GoodLine(line)
    ensures GoodLine(TrimStart(line))
  {
    TrimAfterTrimStart(line);
  }

  lemma GoodAfterTrimEnd(line: string)
    requires GoodLine(line)
    ensures GoodLine(TrimEnd(line))
  {
    TrimAfterTrimEnd(line);
  }

  lemma GoodAfterTrim(line: string)
    requires GoodLine(line)
    ensures GoodLine(Trim(line))
  {
    TrimIdempotent(line);
  }

  lemma EdgeLineGood(lines: seq<string>, k: nat)
    requires k < |lines| && GoodLine(lines[0]) && GoodLine(lines[k]) && GoodLine(lines[|lines| - 1])
    ensures GoodLine(EdgeTrimmed(lines)[k])
  {
    var n := |lines|;
    var e := EdgeTrimmed(lines);
    if n == 1 {
      assert e[k] == Trim(lines[0]);
      GoodAfterTrim(lines[0]);
    } else if k == 0 {
      assert e[k] == TrimStart(lines[0]);
      GoodAfterTrimStart(lines[0]);
    } else if k == n - 1 {
      assert e[k] == TrimEnd(lines[k]);
      GoodAfterTrimEnd(lines[k]);
    } else {
      assert e[k] == lines[k];
    }
  }

  /** Trimming a line at either end, or both, keeps what the filter tests. */
  lemma EdgeTrimmedGood(lines: seq<string>)
    requires |lines| >= 1 && forall k :: 0 <= k < |lines| ==> GoodLine(lines[k])
    ensures forall k :: 0 <= k < |lines| ==> GoodLine(EdgeTrimmed(lines)[k])
  {
    forall k | 0 <= k < |lines|
      ensures GoodLine(EdgeTrimmed(lines)[k])
    {
      EdgeLineGood(lines, k);
    }
  }

  lemma EdgeTrimmedNoNewline(lines: seq<string>)
    requires |lines| >= 1 && forall k :: 0 <= k < |lines| ==> '\n' !in lines[k]
    ensures forall k :: 0 <= k < |lines| ==> '\n' !in EdgeTrimmed(lines)[k]
  {
    var e := EdgeTrimmed(lines);
    forall k | 0 <= k < |lines|
      ensures '\n' !in e[k]
    {
      TrimStartShape(lines[0]);
      TrimEndShape(lines[k]);
      TrimChars(lines[0], '\n');
    }
  }

  /**
    The output lines are exactly the kept lines, in order, with the first
    line's indentation and the last line's tail trimmed; each of them
    passes the filter. The output is empty exactly when no line is kept.
   */
  lemma ProcessLines(raw: string)
    ensures var kept := KeepLines(Split(CleanChars(raw), '\n'));
      var r := ProcessPdfText(raw);
      && (r == [] <==> kept == [])
      && (kept != [] ==>
            && Split(r, '\n') == EdgeTrimmed(kept)
            && forall k :: 0 <= k < |Split(r, '\n')| ==> GoodLine(Split(r, '\n')[k]))
  {
    var lines := Split(CleanChars(raw), '\n');
    var kept := KeepLines(lines);
    if raw == [] {
      assert CleanChars(raw) == [];
      assert lines == [""];
      assert !GoodLine("");
    }
    if kept != [] {
      assert forall k :: 0 <= k < |kept| ==> kept[k] in lines;
      TrimJoinedLines(kept);
    }
  }

  /** Trimming the joined good lines gives back the lines, edges trimmed, and leaves something. */
  lemma TrimJoinedLines(kept: seq<string>)
    requires kept != []
    requires forall k :: 0 <= k < |kept| ==> GoodLine(kept[k]) && '\n' !in kept[k]
    ensures var r := Trim(Join(kept, '\n'));
      && r != []
      && Split(r, '\n') == EdgeTrimmed(kept)
      && forall k :: 0 <= k < |Split(r, '\n')| ==> GoodLine(Split(r, '\n')[k])
  {
    var last := kept[|kept| - 1];
    assert |Trim(kept[0])| >= 3 && |Trim(last)| >= 3;
    TrimJoin(kept);
    EdgeTrimmedGood(kept);
    EdgeTrimmedNoNewline(kept);
    SplitJoin(EdgeTrimmed(kept), '\n');
    assert EdgeTrimmed(kept)[0] != [] by {
      if |kept| == 1 {
      } else {
        TrimAfterTrimStart(kept[0]);
      }
    }
  }

  /** The line filter and the trim add no character other than the newline. */
  lemma LinesKeepOut(clean: string, c: char)
    requires c != '\n' && c !in clean
    ensures c !in Trim(Join(KeepLines(Split(clean, '\n')), '\n'))
  {
    var lines := Split(clean, '\n');
    var kept := KeepLines(lines);
    SplitChars(clean, '\n', c);
    assert forall k :: 0 <= k < |kept| ==> kept[k] in lines;
    JoinChars(kept, '\n', c);
    TrimChars(Join(kept, '\n'), c);
  }

  /** A character other than the newline that the replacements leave out stays out. */
  lemma ProcessKeepsOut(raw: string, c: char)
    requires c != '\n' && c !in CleanChars(raw)
    ensures c !in ProcessPdfText(raw)
  {
    if raw != [] {
      LinesKeepOut(CleanChars(raw), c);
    }
  }

  /** The output has no tab, replacement character or no-break space, and no outer whitespace. */
  lemma ProcessDropsChars(raw: string)
    ensures var r := ProcessPdfText(raw);
      && '\t' !in r && ReplacementChar !in r && Nbsp !in r
      && (r != [] ==> !IsWhitespace(r[0]) && !IsWhitespace(r[|r| - 1]))
  {
    CleanCharsDrops(raw);
    ProcessKeepsOut(raw, '\t');
    ProcessKeepsOut(raw, ReplacementChar);
    ProcessKeepsOut(raw, Nbsp);
  }

  // ---------------------------------------------------------------------------
  // Truncation

  const MaxTextLength: nat := 50000
  const TruncationNotice: string := "\n...(文本过长，已截断)"

  /** Longer text keeps its first 50 000 characters and gets the notice; shorter text is unchanged. */
  function Truncate(text: string): (r: string)
    ensures |text| <= MaxTextLength ==> r == text
    ensures |text| > MaxTextLength ==> |r| == MaxTextLength + |TruncationNotice|
    ensures |text| > MaxTextLength ==> r[..MaxTextLength] == text[..MaxTextLength] && r[MaxTextLength..] == TruncationNotice
  {
    if |text| > MaxTextLength then text[..MaxTextLength] + TruncationNotice else text
  }

  /** Truncating a truncated text changes nothing. */
  lemma TruncateIdempotent(text: string)
    ensures Truncate(Truncate(text)) == Truncate(text)
  {
    if |text| > MaxTextLength {
      var r := Truncate(text);
      assert r == r[..MaxTextLength] + r[MaxTextLength..];
    }
  }

  // ---------------------------------------------------------------------------
  // The request

  const MaxUploadBytes: int := 50 * 1024 * 1024
  const DefaultModel: string := "gemini-2.5-flash-preview-05-20"
  const DefaultApiUrl: string := "https://generativelanguage.googleapis.com/v1beta/openai/chat/completions"
  const RawTextMarker: string := "RETURN_RAW_TEXT"

  const PdfMime: string := "application/pdf"
  const DocxMime: string := "application/vnd.openxmlformats-officedocument.wordprocessingml.document"
  const ZipMime: string := "application/zip"
  const MsWordMime: string := "application/msword"

  const NoKeyMessage: string := "未提供API密钥，请在设置中配置API密钥或联系管理员配置服务器密钥"
  const NoFileMessage: string := "缺少必要的文件数据"
  const TooLargeMessage: string := "文件大小超过50MB限制，请选择较小的文件"
  const LegacyWordMessage: string := "暂不支持旧版Word文档(.doc)格式，请转换为.docx格式后重试"
  const UnsupportedMessage: string := "不支持的文件格式。请上传PDF(.pdf)或Word文档(.docx)文件"
  const ParseFailedPrefix: string := "文件解析失败: "
  const PdfFailedPrefix: string := "PDF解析失败: "
  const PdfEmptyMessage: string := "PDF文件中未找到可读取的文本内容"
  const WordEmptyMessage: string := "Word文档中未找到可读取的文本内容"

  /** The instruction sent upstream when the form carries no prompt, before the document text. */
  const DefaultPromptHead: string :=
    "请从以下文档内容中提取所有日文文字，并进行以下处理：\n"
    + "1. 只保留日文文字内容（平假名、片假名、汉字）\n"
    + "2. 去除多余的空白和换行符\n"
    + "3. 保持句子的自然分段\n"
    + "4. 如果没有日文内容，请说明\"未找到日文内容\"\n\n"
    + "文档内容：\n"

  datatype Upload = Upload(size: int, mimeType: string, name: string)

  /** The multipart fields the route reads; an absent field is `None`. */
  datatype Form = Form(
    file: Option<Upload>,
    prompt: Option<string>,
    model: Option<string>,
    apiUrl: Option<string>,
    stream: Option<string>)

  /** What the parsing library made of the file: its text, or the message of the error it threw. */
  datatype Extraction = Extracted(text: string) | Threw(message: string)

  datatype FileKind = Pdf | Docx | LegacyWord | Unsupported

  datatype Reply =
    | Rejected(status: nat, message: string)
    | RawText(text: string)
    | Forward(apiKey: string, apiUrl: string, model: string, stream: bool, content: string)

  /** A JavaScript `||` default for strings: the empty string is falsy. */
  function Or(value: Option<string>, fallback: string): string {
    if value.Some? && value.value != [] then value.value else fallback
  }

  /** `process.env.API_URL || <default>`: the environment's URL when set and not empty, else the public endpoint. */
  function ServerApiUrl(env: Option<string>): (u: string)
    ensures u != []
    ensures env.Some? && env.value != [] ==> u == env.value
    ensures env.None? || env.value == [] ==> u == DefaultApiUrl
  {
    Or(env, DefaultApiUrl)
  }

  /** The user's key from `Authorization` (first `Bearer ` removed), else the server's key. */
  function EffectiveKey(authorization: Option<string>, serverKey: string): string {
    var userKey := if authorization.Some? && authorization.value != [] then ReplaceFirst(authorization.value, "Bearer ", "") else "";
    if userKey != [] then userKey else serverKey
  }

  /** The file kind: PDF by type or lower-cased name first, then Word, then the legacy `.doc` format. */
  function KindOf(file: Upload): FileKind {
    var name := ToLower(file.name);
    if file.mimeType == PdfMime || EndsWith(name, ".pdf") then Pdf
    else if || file.mimeType == DocxMime || EndsWith(name, ".docx")
            || (file.mimeType == ZipMime && EndsWith(name, ".docx"))
            || (file.mimeType == [] && EndsWith(name, ".docx")) then Docx
    else if file.mimeType == MsWordMime || EndsWith(name, ".doc") then LegacyWord
    else Unsupported
  }

  /** The extracted text, or the message the route reports with status 400. */
  function ExtractText(kind: FileKind, library: Extraction): Result<string, string>
    requires kind == Pdf || kind == Docx
  {
    match library
    case Threw(m) =>
      Err(ParseFailedPrefix + (if kind == Pdf then PdfFailedPrefix + m else m))
    case Extracted(raw) =>
      if kind == Pdf then
        var text := ProcessPdfText(raw);
        if Trim(text) == [] then Err(ParseFailedPrefix + PdfFailedPrefix + PdfEmptyMessage) else Ok(text)
      else
        if Trim(raw) == [] then Err(ParseFailedPrefix + WordEmptyMessage) else Ok(raw)
  }

  /** What the route does with extracted text: answer with it, or forward it upstream. */
  function Respond(key: string, form: Form, serverUrl: string, extracted: string): Reply {
    var text := Truncate(extracted);
    if form.prompt.Some? && form.prompt.value != [] && Contains(form.prompt.value, RawTextMarker) then RawText(text)
    else Forward(key, Or(form.apiUrl, serverUrl), Or(form.model, DefaultModel), form.stream == Some("true"),
                 Or(form.prompt, DefaultPromptHead + text))
  }

  /**
    The POST handler up to the upstream call. `serverKey` is the environment's
    key (`''` when unset) and `serverUrl` is `ServerApiUrl` of its URL.
   */
  function Handle(authorization: Option<string>, form: Form, serverKey: string, serverUrl: string,
                  library: Extraction): Reply {
    var key := EffectiveKey(authorization, serverKey);
    if key == [] then Rejected(500, NoKeyMessage)
    else if form.file.None? then Rejected(400, NoFileMessage)
    else if form.file.value.size > MaxUploadBytes then Rejected(413, TooLargeMessage)
    else match KindOf(form.file.value)
      case LegacyWord => Rejected(400, LegacyWordMessage)
      case Unsupported => Rejected(400, UnsupportedMessage)
      case Pdf =>
        (match ExtractText(Pdf, library)
         case Err(m) => Rejected(400, m)
         case Ok(text) => Respond(key, form, serverUrl, text))
      case Docx =>
        (match ExtractText(Docx, library)
         case Err(m) => Rejected(400, m)
         case Ok(text) => Respond(key, form, serverUrl, text))
  }

  // ---------------------------------------------------------------------------
  // Properties of the route

  /** A `Bearer` header yields its token, whatever key the server has. */
  lemma BearerTokenWins(token: string, serverKey: string)
    requires token != []
    ensures EffectiveKey(Some("Bearer " + token), serverKey) == token
  {
    var h := "Bearer " + token;
    assert OccursAt(h, "Bearer ", 0) by {
      assert h[0..7] == "Bearer ";
    }
    assert h[7..] == token;
  }

  /** Without a user key the server key is used. */
  lemma ServerKeyFallback(serverKey: string)
    ensures EffectiveKey(None, serverKey) == serverKey
    ensures EffectiveKey(Some(""), serverKey) == serverKey
  {
  }

  /**
    The checks come in order: a missing key wins over a missing file, which
    wins over an oversized file, which wins over the file's kind.
   */
  lemma ChecksInOrder(authorization: Option<string>, form: Form, serverKey: string, serverUrl: string,
                      library: Extraction)
    ensures var r := Handle(authorization, form, serverKey, serverUrl, library);
      var key := EffectiveKey(authorization, serverKey);
      && (key == [] ==> r == Rejected(500, NoKeyMessage))
      && (key != [] && form.file.None? ==> r == Rejected(400, NoFileMessage))
      && (key != [] && form.file.Some? && form.file.value.size > MaxUploadBytes ==> r == Rejected(413, TooLargeMessage))
      && (r.Rejected? && r.status == 413 ==> form.file.Some? && form.file.value.size > MaxUploadBytes)
  {
  }

  /**
    A forwarded request goes to the form's URL when one is given, else to the
    environment's URL, else to the public endpoint; never to an empty URL.
   */
  lemma ForwardUrlChain(key: string, form: Form, env: Option<string>, text: string)
    ensures var r := Respond(key, form, ServerApiUrl(env), text);
      var noFormUrl := form.apiUrl.None? || form.apiUrl.value == [];
      r.Forward? ==>
        && r.apiUrl != []
        && (!noFormUrl ==> r.apiUrl == form.apiUrl.value)
        && (noFormUrl && env.Some? && env.value != [] ==> r.apiUrl == env.value)
        && (noFormUrl && (env.None? || env.value == []) ==> r.apiUrl == DefaultApiUrl)
  {
  }

  /** A PDF type or a `.pdf` name, in any letter case, makes the file a PDF, whatever else it claims. */
  lemma PdfComesFirst(file: Upload)
    requires file.mimeType == PdfMime || EndsWith(ToLower(file.name), ".pdf")
    ensures KindOf(file) == Pdf
  {
  }

  /** A `.doc` name is refused unless the type says PDF or Word. */
  lemma LegacyWordRefused(file: Upload)
    requires EndsWith(ToLower(file.name), ".doc") && file.mimeType != PdfMime && file.mimeType != DocxMime
    ensures KindOf(file) == LegacyWord
  {
    var name := ToLower(file.name);
    assert name[|name| - 1] == 'c';
  }

  /** The legacy Word type is refused unless the name says PDF or Word. */
  lemma MsWordRefused(file: Upload)
    requires file.mimeType == MsWordMime
    requires !EndsWith(ToLower(file.name), ".pdf") && !EndsWith(ToLower(file.name), ".docx")
    ensures KindOf(file) == LegacyWord
  {
  }

  /** After the size check, a legacy Word file and a file of any other unsupported kind get their own 400 replies. */
  lemma RefusedKinds(authorization: Option<string>, form: Form, serverKey: string, serverUrl: string,
                     library: Extraction)
    requires EffectiveKey(authorization, serverKey) != []
    requires form.file.Some? && form.file.value.size <= MaxUploadBytes
    ensures var r := Handle(authorization, form, serverKey, serverUrl, library);
      && (KindOf(form.file.value) == LegacyWord ==> r == Rejected(400, LegacyWordMessage))
      && (KindOf(form.file.value) == Unsupported ==> r == Rejected(400, UnsupportedMessage))
  {
  }

  /**
    A PDF or Word file whose parsing throws, or that yields no text, gets a
    400 reply whose message starts with the parse-failure prefix; a PDF's
    message also carries the PDF prefix.
   */
  lemma ExtractionRefused(authorization: Option<string>, form: Form, serverKey: string, serverUrl: string,
                          library: Extraction)
    requires EffectiveKey(authorization, serverKey) != []
    requires form.file.Some? && form.file.value.size <= MaxUploadBytes
    ensures var r, kind := Handle(authorization, form, serverKey, serverUrl, library), KindOf(form.file.value);
      && (kind == Pdf && library.Threw? ==> r == Rejected(400, ParseFailedPrefix + PdfFailedPrefix + library.message))
      && (kind == Docx && library.Threw? ==> r == Rejected(400, ParseFailedPrefix + library.message))
      && (kind == Pdf && library.Extracted? && Trim(ProcessPdfText(library.text)) == [] ==>
            r == Rejected(400, ParseFailedPrefix + PdfFailedPrefix + PdfEmptyMessage))
      && (kind == Docx && library.Extracted? && Trim(library.text) == [] ==>
            r == Rejected(400, ParseFailedPrefix + WordEmptyMessage))
  {
  }

  /** Only a PDF or a Word document that yields text can be answered without an error. */
  lemma OnlyTextIsAnswered(authorization: Option<string>, form: Form, serverKey: string, serverUrl: string,
                           library: Extraction)
    ensures var r := Handle(authorization, form, serverKey, serverUrl, library);
      !r.Rejected? ==>
        && form.file.Some? && form.file.value.size <= MaxUploadBytes
        && (KindOf(form.file.value) == Pdf || KindOf(form.file.value) == Docx)
        && library.Extracted?
        && EffectiveKey(authorization, serverKey) != []
  {
  }

  /**
    With the marker in the prompt, the route answers with the cleaned and
    truncated text of a PDF and makes no upstream call.
   */
  lemma RawPdfText(authorization: Option<string>, form: Form, serverKey: string, serverUrl: string, raw: string)
    requires EffectiveKey(authorization, serverKey) != []
    requires form.file.Some? && form.file.value.size <= MaxUploadBytes && KindOf(form.file.value) == Pdf
    requires form.prompt.Some? && Contains(form.prompt.value, RawTextMarker)
    requires ProcessPdfText(raw) != []
    ensures Handle(authorization, form, serverKey, serverUrl, Extracted(raw)) == RawText(Truncate(ProcessPdfText(raw)))
  {
    var text := ProcessPdfText(raw);
    PdfTextExtracted(raw);
    HandleExtracted(authorization, form, serverKey, serverUrl, Extracted(raw), text);
    RespondRaw(EffectiveKey(authorization, serverKey), form, serverUrl, text);
  }

  /** A PDF or Word file that passes the checks and yields text is answered by `Respond`, whatever its kind. */
  lemma HandleExtracted(authorization: Option<string>, form: Form, serverKey: string, serverUrl: string,
                        library: Extraction, text: string)
    requires EffectiveKey(authorization, serverKey) != []
    requires form.file.Some? && form.file.value.size <= MaxUploadBytes
    requires KindOf(form.file.value) == Pdf || KindOf(form.file.value) == Docx
    requires ExtractText(KindOf(form.file.value), library) == Ok(text)
    ensures Handle(authorization, form, serverKey, serverUrl, library)
         == Respond(EffectiveKey(authorization, serverKey), form, serverUrl, text)
  {
  }

  /** With the marker in the prompt, the text itself is the answer. */
  lemma RespondRaw(key: string, form: Form, serverUrl: string, text: string)
    requires form.prompt.Some? && Contains(form.prompt.value, RawTextMarker)
    ensures Respond(key, form, serverUrl, text) == RawText(Truncate(text))
  {
  }

  /** A PDF whose cleaned text is not empty yields that text. */
  lemma PdfTextExtracted(raw: string)
    requires ProcessPdfText(raw) != []
    ensures ExtractText(Pdf, Extracted(raw)) == Ok(ProcessPdfText(raw))
  {
    var text := ProcessPdfText(raw);
    ProcessDropsChars(raw);
    TrimNoEdges(text);
  }

  /** A Word document with some non-whitespace text yields that text as it is, without the PDF clean-up. */
  lemma DocxTextExtracted(raw: string)
    requires Trim(raw) != []
    ensures ExtractText(Docx, Extracted(raw)) == Ok(raw)
  {
  }

  /**
    With the marker in the prompt, the route answers with the truncated
    extracted text of either kind and makes no upstream call.
   */
  lemma RawExtractedText(authorization: Option<string>, form: Form, serverKey: string, serverUrl: string,
                         library: Extraction, text: string)
    requires EffectiveKey(authorization, serverKey) != []
    requires form.file.Some? && form.file.value.size <= MaxUploadBytes
    requires KindOf(form.file.value) == Pdf || KindOf(form.file.value) == Docx
    requires ExtractText(KindOf(form.file.value), library) == Ok(text)
    requires form.prompt.Some? && Contains(form.prompt.value, RawTextMarker)
    ensures Handle(authorization, form, serverKey, serverUrl, library) == RawText(Truncate(text))
  {
    HandleExtracted(authorization, form, serverKey, serverUrl, library, text);
    RespondRaw(EffectiveKey(authorization, serverKey), form, serverUrl, text);
  }

  /** With the marker in the prompt, a Word document with text is answered with its truncated text, uncleaned. */
  lemma RawDocxText(authorization: Option<string>, form: Form, serverKey: string, serverUrl: string, raw: string)
    requires EffectiveKey(authorization, serverKey) != []
    requires form.file.Some? && form.file.value.size <= MaxUploadBytes && KindOf(form.file.value) == Docx
    requires form.prompt.Some? && Contains(form.prompt.value, RawTextMarker)
    requires Trim(raw) != []
    ensures Handle(authorization, form, serverKey, serverUrl, Extracted(raw)) == RawText(Truncate(raw))
  {
    DocxTextExtracted(raw);
    RawExtractedText(authorization, form, serverKey, serverUrl, Extracted(raw), raw);
  }

  /**
    Without the marker, the extracted text of either kind is forwarded: to the
    form's URL or the server's, with the form's model or the default, streaming
    only for the string "true", and with the form's prompt or else the default
    instruction followed by the truncated text.
   */
  lemma ForwardExtracted(authorization: Option<string>, form: Form, serverKey: string, serverUrl: string,
                         library: Extraction, text: string)
    requires EffectiveKey(authorization, serverKey) != []
    requires form.file.Some? && form.file.value.size <= MaxUploadBytes
    requires KindOf(form.file.value) == Pdf || KindOf(form.file.value) == Docx
    requires ExtractText(KindOf(form.file.value), library) == Ok(text)
    requires form.prompt.None? || !Contains(form.prompt.value, RawTextMarker)
    ensures Handle(authorization, form, serverKey, serverUrl, library)
         == Forward(EffectiveKey(authorization, serverKey), Or(form.apiUrl, serverUrl), Or(form.model, DefaultModel),
                    form.stream == Some("true"), Or(form.prompt, DefaultPromptHead + Truncate(text)))
  {
    HandleExtracted(authorization, form, serverKey, serverUrl, library, text);
  }

  /** A text that does not start with whitespace keeps its content under trim. */
  lemma TrimNoEdges(s: string)
    requires s != [] && !IsWhitespace(s[0])
    ensures Trim(s) != []
  {
  }
}
