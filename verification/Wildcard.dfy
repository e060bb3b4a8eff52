/** File-mask matching: the loop that backtracks only to the last asterisk,
    proved equal to the recursive meaning of the two wildcards. */
module Wildcard {

  /** Upper-case equivalent of a character, as in the folding table. */
  function Fold(c: char): char {
    if 'a' <= c <= 'z' then 'A' + (c - 'a') else c
  }

  predicate Same(a: char, b: char, ignoreCase: bool) {
    if ignoreCase then Fold(a) == Fold(b) else a == b
  }

  /** A mask character other than the asterisk accepts a character. */
  predicate Fits(m: char, c: char, ic: bool) {
    m == '?' || Same(c, m, ic)
  }

  /** The meaning of a mask: '*' stands for any run of characters, '?' for any one. */
  predicate Accepts(mask: string, str: string, ic: bool)
    decreases |mask|, |str|
  {
    if mask == "" then str == ""
    else if mask[0] == '*' then
      Accepts(mask[1..], str, ic) || (str != "" && Accepts(mask, str[1..], ic))
    else
      str != "" && Fits(mask[0], str[0], ic) && Accepts(mask[1..], str[1..], ic)
  }

  /** A letter and its other case. */
  predicate OtherCase(a: char, b: char) {
    || ('a' <= a <= 'z' && 'A' <= b <= 'Z' && a as int - b as int == 32)
    || ('a' <= b <= 'z' && 'A' <= a <= 'Z' && b as int - a as int == 32)
  }

  /** A question mark stands for exactly one character, whatever it is. */
  lemma QuestionMark(rest: string, str: string, ic: bool)
    ensures Accepts("?" + rest, str, ic) <==> str != "" && Accepts(rest, str[1..], ic)
  {
    assert ("?" + rest)[1..] == rest;
  }

  /** Any other character stands for itself, or for either case of a letter when case
      is ignored. */
  lemma OrdinaryCharacter(c: char, rest: string, str: string, ic: bool)
    requires c != '*' && c != '?'
    ensures Accepts([c] + rest, str, ic) <==>
              && str != "" && (str[0] == c || (ic && OtherCase(str[0], c)))
              && Accepts(rest, str[1..], ic)
  {
    assert ([c] + rest)[1..] == rest;
    if str != "" { FoldingIsCase(str[0], c); }
  }

  /** Folding confuses exactly a letter with its other case. */
  lemma FoldingIsCase(a: char, b: char)
    ensures Same(a, b, true) <==> a == b || OtherCase(a, b)
  {
  }

  /** An empty mask stands for the empty string only. */
  lemma EmptyMask(str: string, ic: bool)
    ensures Accepts("", str, ic) <==> str == ""
  {
  }

  /** An asterisk followed by `rest` accepts a string when `rest` accepts some suffix of it. */
  ghost predicate AcceptsSuffix(rest: string, str: string, from: nat, ic: bool) {
    exists k | from <= k <= |str| :: Accepts(rest, str[k..], ic)
  }

  lemma {:induction false} StarIsAnySuffix(rest: string, str: string, ic: bool)
    ensures Accepts("*" + rest, str, ic) <==> AcceptsSuffix(rest, str, 0, ic)
    decreases |str|
  {
    var mask := "*" + rest;
    assert mask[1..] == rest && str[0..] == str;
    if str == "" {
    } else {
      StarIsAnySuffix(rest, str[1..], ic);
      if k :| 0 <= k <= |str[1..]| && Accepts(rest, str[1..][k..], ic) {
        assert str[1..][k..] == str[k + 1..];
      }
      if k :| 0 <= k <= |str| && Accepts(rest, str[k..], ic) {
        if k > 0 { assert str[1..][k - 1..] == str[k..]; }
      }
    }
  }

  /** A run of non-asterisk mask characters fits a run of characters one for one. */
  ghost predicate FitsRun(m: string, s: string, ic: bool) {
    |m| == |s| && forall i | 0 <= i < |m| :: m[i] != '*' && Fits(m[i], s[i], ic)
  }

  /** A star-free prefix consumes exactly its own length. */
  lemma {:induction false} PrefixConsumes(run: string, rest: string, str: string, ic: bool)
    requires forall i | 0 <= i < |run| :: run[i] != '*'
    ensures Accepts(run + rest, str, ic) <==>
              |run| <= |str| && FitsRun(run, str[..|run|], ic) && Accepts(rest, str[|run|..], ic)
    decreases |run|
  {
    var mask := run + rest;
    if run == "" {
      assert mask == rest && str[0..] == str;
    } else {
      assert mask[1..] == run[1..] + rest;
      if str != "" {
        PrefixConsumes(run[1..], rest, str[1..], ic);
        if |run| <= |str| {
          assert str[1..][..|run| - 1] == str[..|run|][1..];
          assert str[1..][|run| - 1..] == str[|run|..];
          if FitsRun(run[1..], str[1..][..|run| - 1], ic) && Fits(run[0], str[0], ic) {
            forall i | 0 <= i < |run| ensures run[i] != '*' && Fits(run[i], str[..|run|][i], ic) {
              if i > 0 { assert run[i] == run[1..][i - 1] && str[i] == str[1..][i - 1]; }
            }
          }
          if FitsRun(run, str[..|run|], ic) {
            assert Fits(run[0], str[..|run|][0], ic);
            forall i | 0 <= i < |run| - 1
              ensures run[1..][i] != '*' && Fits(run[1..][i], str[1..][..|run| - 1][i], ic)
            {
              assert run[1..][i] == run[i + 1] && str[1..][i] == str[..|run|][i + 1];
            }
          }
        }
      }
    }
  }

  /** What is left of the mask matches nothing more exactly when it is all asterisks. */
  lemma {:induction false} EndOfString(mask: string, ic: bool)
    ensures Accepts(mask, "", ic) <==> forall i | 0 <= i < |mask| :: mask[i] == '*'
    decreases |mask|
  {
    if mask == "" {
    } else {
      EndOfString(mask[1..], ic);
      if mask[0] == '*' && forall i | 0 <= i < |mask| - 1 :: mask[1..][i] == '*' {
        forall i | 0 <= i < |mask| ensures mask[i] == '*' {
          if i > 0 { assert mask[i] == mask[1..][i - 1]; }
        }
      }
      if forall i | 0 <= i < |mask| :: mask[i] == '*' {
        forall i | 0 <= i < |mask| - 1 ensures mask[1..][i] == '*' { assert mask[1..][i] == mask[i + 1]; }
      }
    }
  }

  /** A mismatch after a fitting run rules out the current starting point. */
  lemma StartFails(run: string, rest: string, str: string, from: nat, ic: bool)
    requires from + |run| < |str| && FitsRun(run, str[from..from + |run|], ic)
    requires rest == "" || (rest[0] != '*' && !Fits(rest[0], str[from + |run|], ic))
    ensures !Accepts(run + rest, str[from..], ic)
  {
    PrefixConsumes(run, rest, str[from..], ic);
    assert str[from..][|run|..] == str[from + |run|..];
  }

  lemma RunHasNoStars(run: string, s: string, ic: bool)
    requires FitsRun(run, s, ic)
    ensures |run| == |s| && forall i | 0 <= i < |run| :: run[i] != '*'
  {
  }

  /** Once a second asterisk is reached the choice made for the first need not be revisited. */
  lemma LastStarSuffices(run: string, rest: string, str: string, from: nat, ic: bool)
    requires from + |run| <= |str| && FitsRun(run, str[from..from + |run|], ic)
    ensures AcceptsSuffix(run + "*" + rest, str, from, ic) <==> AcceptsSuffix(rest, str, from + |run|, ic)
  {
    hide Accepts, FitsRun;
    RunHasNoStars(run, str[from..from + |run|], ic);
    var n := |run|;
    assert run + "*" + rest == run + ("*" + rest);
    if k :| from <= k <= |str| && Accepts(run + "*" + rest, str[k..], ic) {
      PrefixConsumes(run, "*" + rest, str[k..], ic);
      assert str[k..][n..] == str[k + n..];
      StarIsAnySuffix(rest, str[k + n..], ic);
      var j :| 0 <= j <= |str[k + n..]| && Accepts(rest, str[k + n..][j..], ic);
      assert str[k + n..][j..] == str[k + n + j..];
    }
    if k :| from + n <= k <= |str| && Accepts(rest, str[k..], ic) {
      PrefixConsumes(run, "*" + rest, str[from..], ic);
      assert str[from..][..n] == str[from..from + n] && str[from..][n..] == str[from + n..];
      StarIsAnySuffix(rest, str[from + n..], ic);
      assert str[from + n..][k - from - n..] == str[k..];
    }
  }

  /** At the end of the string only the current starting point can still succeed. */
  lemma EndDecides(run: string, rest: string, str: string, from: nat, ic: bool)
    requires from + |run| == |str| && FitsRun(run, str[from..], ic)
    ensures AcceptsSuffix(run + rest, str, from, ic) <==> Accepts(rest, "", ic)
  {
    PrefixConsumes(run, rest, str[from..], ic);
    assert str[from..][..|run|] == str[from..] && str[from..][|run|..] == "";
    forall k | from < k <= |str| ensures !Accepts(run + rest, str[k..], ic) {
      PrefixConsumes(run, rest, str[k..], ic);
    }
  }

  lemma SuffixSplits(rest: string, str: string, from: nat, ic: bool)
    requires from < |str| && !Accepts(rest, str[from..], ic)
    ensures AcceptsSuffix(rest, str, from, ic) <==> AcceptsSuffix(rest, str, from + 1, ic)
  {
  }

  lemma LongerPrefix(mask: string, str: string, m: nat, ic: bool)
    requires m < |mask| && m < |str| && FitsRun(mask[..m], str[..m], ic)
    requires mask[m] != '*' && Fits(mask[m], str[m], ic)
    ensures FitsRun(mask[..m + 1], str[..m + 1], ic)
  {
    assert mask[..m] == mask[0..m] && str[..m] == str[0..m];
    LongerRun(mask, 0, m, str, 0, m, ic);
    assert mask[..m + 1] == mask[0..m + 1] && str[..m + 1] == str[0..m + 1];
  }

  /** The matcher's first loop: compare up to the first asterisk. */
  method MatchPrefix(str: string, mask: string, ignoreCase: bool) returns (ok: bool, m: nat)
    ensures !ok ==> !Accepts(mask, str, ignoreCase)
    ensures ok ==> m <= |mask| && m <= |str| && (m < |str| ==> m < |mask| && mask[m] == '*')
    ensures ok ==> (Accepts(mask, str, ignoreCase) <==> Accepts(mask[m..], str[m..], ignoreCase))
  {
    hide Accepts, FitsRun;
    ghost var ic := ignoreCase;
    var s;
    s, m := 0, 0;
    EmptyRun(mask[..m], str[..m], ic);
    while s < |str| && !(m < |mask| && mask[m] == '*')
      invariant s == m && m <= |mask| && s <= |str|
      invariant FitsRun(mask[..m], str[..m], ic)
    {
      if m == |mask| || (mask[m] != '?' && !Same(str[s], mask[m], ignoreCase)) {
        assert mask[..m] + mask[m..] == mask && str[0..] == str && str[0..0 + m] == str[..m];
        StartFails(mask[..m], mask[m..], str, 0, ic);
        return false, m;
      }
      LongerPrefix(mask, str, m, ic);
      s := s + 1;
      m := m + 1;
    }
    assert mask[..m] + mask[m..] == mask;
    RunHasNoStars(mask[..m], str[..m], ic);
    PrefixConsumes(mask[..m], mask[m..], str, ic);
    ok := true;
  }

  /** The matcher's last loop: is the rest of the mask all asterisks? */
  method OnlyAsterisksLeft(mask: string, from: nat, ghost ic: bool) returns (ok: bool)
    requires from <= |mask|
    ensures ok <==> Accepts(mask[from..], "", ic)
  {
    var m := from;
    while m < |mask| && mask[m] == '*'
      invariant from <= m <= |mask| && forall i | from <= i < m :: mask[i] == '*'
    {
      m := m + 1;
    }
    EndOfString(mask[from..], ic);
    assert m < |mask| ==> mask[from..][m - from] != '*';
    ok := m == |mask|;
  }

  /** The matcher.  `s` and `m` index the string and the mask; `mp` is the mask
      position after the last asterisk, `sp` the position after the current
      starting point in the string. */
  method Match(str: string, mask: string, ignoreCase: bool) returns (ok: bool)
    ensures ok <==> Accepts(mask, str, ignoreCase)
  {
    hide Accepts, AcceptsSuffix, FitsRun;
    ghost var ic := ignoreCase;
    var m;
    ok, m := MatchPrefix(str, mask, ignoreCase);
    if !ok {
      return;
    }
    var s := m;
    var mp, sp := -1, 0;
    ghost var first := m;
    while s < |str|
      invariant 0 <= s <= |str| && first <= m <= |mask| && first <= |str|
      invariant mp == -1 ==> s == first && m == first && (s < |str| ==> m < |mask| && mask[m] == '*')
      invariant mp != -1 ==> first < mp <= m && first <= sp - 1 <= s && s - (sp - 1) == m - mp
      invariant mp != -1 ==> FitsRun(mask[mp..m], str[sp - 1..s], ic)
      invariant mp != -1 ==>
                  (Accepts(mask, str, ic) <==> AcceptsSuffix(mask[mp..], str, sp - 1, ic))
      invariant Accepts(mask, str, ic) <==> Accepts(mask[first..], str[first..], ic)
      decreases |mask| - mp, |str| - sp, |str| - s
    {
      if m < |mask| && mask[m] == '*' {
        NewStar(mask, str, first, mp, m, sp, s, ic);
        m := m + 1;
        if m == |mask| {
          EmptyTail(str, s, ic);
          assert mask[m..] == "";
          return true;
        }
        mp := m;
        sp := s + 1;
        EmptyRun(mask[mp..m], str[sp - 1..s], ic);
      } else if m < |mask| && (mask[m] == '?' || Same(str[s], mask[m], ignoreCase)) {
        LongerRun(mask, mp, m, str, sp - 1, s, ic);
        s := s + 1;
        m := m + 1;
      } else {
        assert mask[mp..m] + mask[m..] == mask[mp..];
        assert sp - 1 + |mask[mp..m]| == s;
        StartFails(mask[mp..m], mask[m..], str, sp - 1, ic);
        SuffixSplits(mask[mp..], str, sp - 1, ic);
        m := mp;
        s := sp;
        sp := sp + 1;
        EmptyRun(mask[mp..m], str[sp - 1..s], ic);
      }
    }
    Finish(mask, str, first, mp, m, sp, ic);
    ok := OnlyAsterisksLeft(mask, m, ic);
  }

  lemma EmptyRun(m: string, s: string, ic: bool)
    requires m == "" && s == ""
    ensures FitsRun(m, s, ic)
  {
  }

  lemma LongerRun(mask: string, mp: nat, m: nat, str: string, sp: nat, s: nat, ic: bool)
    requires mp <= m < |mask| && sp <= s < |str| && FitsRun(mask[mp..m], str[sp..s], ic)
    requires mask[m] != '*' && Fits(mask[m], str[s], ic)
    ensures FitsRun(mask[mp..m + 1], str[sp..s + 1], ic)
  {
    assert mask[mp..m + 1] == mask[mp..m] + [mask[m]];
    assert str[sp..s + 1] == str[sp..s] + [str[s]];
  }

  /** An asterisk that ends the mask takes the rest of the string. */
  lemma EmptyTail(str: string, from: nat, ic: bool)
    requires from <= |str|
    ensures AcceptsSuffix("", str, from, ic)
  {
    assert str[|str|..] == "";
    assert Accepts("", str[|str|..], ic);
  }

  lemma StarThenRest(rest: string, str: string, s: nat, ic: bool)
    requires s <= |str|
    ensures Accepts("*" + rest, str[s..], ic) <==> AcceptsSuffix(rest, str, s, ic)
  {
    StarIsAnySuffix(rest, str[s..], ic);
    hide Accepts;
    if k :| 0 <= k <= |str[s..]| && Accepts(rest, str[s..][k..], ic) {
      assert str[s..][k..] == str[s + k..];
    }
    if k :| s <= k <= |str| && Accepts(rest, str[k..], ic) {
      assert str[s..][k - s..] == str[k..];
    }
  }

  /** Moving to a new asterisk keeps the question the same. */
  lemma NewStar(mask: string, str: string, first: nat, mp: int, m: nat, sp: nat, s: nat, ic: bool)
    requires first <= m < |mask| && mask[m] == '*' && s <= |str| && first <= |str|
    requires mp == -1 ==> s == first && m == first
    requires mp != -1 ==> first < mp <= m && first <= sp - 1 <= s && s - (sp - 1) == m - mp
    requires mp != -1 ==> FitsRun(mask[mp..m], str[sp - 1..s], ic)
    requires mp != -1 ==> (Accepts(mask, str, ic) <==> AcceptsSuffix(mask[mp..], str, sp - 1, ic))
    requires Accepts(mask, str, ic) <==> Accepts(mask[first..], str[first..], ic)
    ensures Accepts(mask, str, ic) <==> AcceptsSuffix(mask[m + 1..], str, s, ic)
  {
    hide Accepts, AcceptsSuffix, FitsRun;
    var rest := mask[m + 1..];
    if mp == -1 {
      assert mask[first..] == "*" + rest;
      StarThenRest(rest, str, s, ic);
    } else {
      assert mask[mp..m] + "*" + rest == mask[mp..];
      LastStarSuffices(mask[mp..m], rest, str, sp - 1, ic);
    }
  }

  /** When the string is used up, what is left of the mask decides. */
  lemma Finish(mask: string, str: string, first: nat, mp: int, m: nat, sp: nat, ic: bool)
    requires first <= m <= |mask| && first <= |str|
    requires mp == -1 ==> |str| == first && m == first
    requires mp != -1 ==> first < mp <= m && first <= sp - 1 <= |str| && |str| - (sp - 1) == m - mp
    requires mp != -1 ==> FitsRun(mask[mp..m], str[sp - 1..|str|], ic)
    requires mp != -1 ==> (Accepts(mask, str, ic) <==> AcceptsSuffix(mask[mp..], str, sp - 1, ic))
    requires Accepts(mask, str, ic) <==> Accepts(mask[first..], str[first..], ic)
    ensures Accepts(mask, str, ic) <==> Accepts(mask[m..], "", ic)
  {
    if mp == -1 {
      assert str[first..] == "";
    } else {
      assert mask[mp..m] + mask[m..] == mask[mp..];
      assert str[sp - 1..|str|] == str[sp - 1..];
      EndDecides(mask[mp..m], mask[m..], str, sp - 1, ic);
    }
  }

  // ----- collapsing runs of asterisks -----

  /** The mask with each run of asterisks replaced by one. */
  function Collapse(mask: string): (r: string)
    ensures |r| <= |mask|
  {
    if mask == "" then ""
    else
      var front, c := mask[..|mask| - 1], mask[|mask| - 1];
      if c == '*' && front != "" && front[|front| - 1] == '*' then Collapse(front)
      else Collapse(front) + [c]
  }

  /** The normalisation loop; `last` is the position of the asterisk seen last. */
  method CollapseAsterisks(mask: string) returns (r: string)
    ensures r == Collapse(mask)
  {
    var last := -1;
    r := "";
    for i := 0 to |mask|
      invariant -1 <= last < i
      invariant r == Collapse(mask[..i])
      invariant last >= 0 ==> mask[last] == '*'
      invariant forall k | last < k < i :: mask[k] != '*'
    {
      assert mask[..i + 1][..i] == mask[..i];
      if mask[i] == '*' {
        if last == -1 || last != i - 1 {
          r := r + [mask[i]];
        }
        last := i;
      } else {
        r := r + [mask[i]];
      }
    }
    assert mask[..|mask|] == mask;
  }

  lemma {:induction false} CollapsedHasNoRuns(mask: string)
    ensures forall i | 0 < i < |Collapse(mask)| :: !(Collapse(mask)[i - 1] == '*' && Collapse(mask)[i] == '*')
    ensures mask != "" ==> Collapse(mask) != "" && Collapse(mask)[|Collapse(mask)| - 1] == mask[|mask| - 1]
    decreases |mask|
  {
    if mask == "" {
    } else {
      CollapsedHasNoRuns(mask[..|mask| - 1]);
    }
  }

  /** A second asterisk right after the first adds nothing. */
  lemma DoubleStar(rest: string, str: string, ic: bool)
    ensures Accepts("**" + rest, str, ic) <==> Accepts("*" + rest, str, ic)
  {
    assert "**" + rest == "*" + ("*" + rest);
    StarIsAnySuffix("*" + rest, str, ic);
    StarIsAnySuffix(rest, str, ic);
    if k :| 0 <= k <= |str| && Accepts("*" + rest, str[k..], ic) {
      StarIsAnySuffix(rest, str[k..], ic);
      var j :| 0 <= j <= |str[k..]| && Accepts(rest, str[k..][j..], ic);
      assert str[k..][j..] == str[k + j..];
    }
    if Accepts("*" + rest, str, ic) {
      assert str[0..] == str;
    }
  }

  /** Equivalent tails make equivalent masks. */
  lemma {:induction false} SameTail(head: string, a: string, b: string, str: string, ic: bool)
    requires forall t: string :: Accepts(a, t, ic) <==> Accepts(b, t, ic)
    ensures Accepts(head + a, str, ic) <==> Accepts(head + b, str, ic)
    decreases |head|, |str|
  {
    if head == "" {
      assert head + a == a && head + b == b;
    } else {
      assert (head + a)[1..] == head[1..] + a && (head + b)[1..] == head[1..] + b;
      SameTail(head[1..], a, b, str, ic);
      if str != "" {
        SameTail(head[1..], a, b, str[1..], ic);
        SameTail(head, a, b, str[1..], ic);
      }
    }
  }

  /** Collapsing first does not change the accepted set. */
  lemma {:induction false} CollapseKeepsMeaning(mask: string, rest: string, str: string, ic: bool)
    ensures Accepts(Collapse(mask) + rest, str, ic) <==> Accepts(mask + rest, str, ic)
    decreases |mask|
  {
    if mask == "" {
    } else {
      var front, c := mask[..|mask| - 1], mask[|mask| - 1];
      assert mask + rest == front + ([c] + rest);
      CollapseKeepsMeaning(front, [c] + rest, str, ic);
      if c == '*' && front != "" && front[|front| - 1] == '*' {
        CollapseKeepsMeaning(front, rest, str, ic);
        var head := front[..|front| - 1];
        assert mask + rest == head + ("**" + rest) && front + rest == head + ("*" + rest);
        forall t: string ensures Accepts("**" + rest, t, ic) <==> Accepts("*" + rest, t, ic) {
          DoubleStar(rest, t, ic);
        }
        SameTail(head, "**" + rest, "*" + rest, str, ic);
      } else {
        assert Collapse(mask) + rest == Collapse(front) + ([c] + rest);
      }
    }
  }

  // ----- the directory scan -----

  /** The next entry at or after `from` whose name fits the mask as the user gave it. */
  method NextEntry(names: seq<string>, from: nat, fileMask: string) returns (i: nat)
    requires from <= |names|
    ensures from <= i <= |names|
    ensures forall k | from <= k < i :: !Accepts(fileMask, names[k], false)
    ensures i < |names| ==> Accepts(fileMask, names[i], false)
  {
    var mask := CollapseAsterisks(fileMask);
    i := from;
    while i < |names|
      invariant from <= i <= |names|
      invariant forall k | from <= k < i :: !Accepts(fileMask, names[k], false)
    {
      var ok := Match(names[i], mask, false);
      CollapseKeepsMeaning(fileMask, "", names[i], false);
      assert mask + "" == mask && fileMask + "" == fileMask;
      if ok {
        return;
      }
      i := i + 1;
    }
  }
}
