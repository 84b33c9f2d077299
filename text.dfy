/** The conventional optional value. */
module Wrappers {
  datatype Option<T> = None | Some(value: T)
}

/** The key codes the editor reacts to. ENTER doubles as the line separator of a view. */
module Keys {
  const BACKSPACE: char := '\U{0008}'
  const ENTER: char := '\n'
  const ESC: char := '\U{001B}'
}

/**
 * The string operations the editing core relies on, each standing for one Rust library call:
 * `str::lines`, `str::match_indices`, `String::insert`/`remove`, `str::replace` with an empty
 * replacement, and `join`. Text is ASCII, so one character is one byte.
 */
module Text {

  predicate IsDigit(c: char) {
    '0' <= c <= '9'
  }

  /** ASCII white space: space, tab, line feed, vertical tab, form feed, carriage return. */
  predicate IsWhitespace(c: char) {
    c == ' ' || 9 <= c as int <= 13
  }

  /** The position of the first '\n' at or after `i`, or `|s|` when there is none. */
  function NextNewline(s: string, i: nat): (k: nat)
    requires i <= |s|
    ensures i <= k <= |s|
    ensures k < |s| ==> s[k] == '\n'
    ensures forall j :: i <= j < k ==> s[j] != '\n'
    decreases |s| - i
  {
    if i == |s| || s[i] == '\n' then i else NextNewline(s, i + 1)
  }

  /** With no '\n' in `s[i..]`, the line from `i` runs to the end of the text. */
  lemma LineToEnd(s: string, i: nat)
    requires i <= |s| && '\n' !in s[i..]
    ensures NextNewline(s, i) == |s|
  {
    assert forall j :: i <= j < |s| ==> s[j] == s[i..][j - i];
  }

  /**
   * `s[i..].lines()` on text without '\r': the pieces between the '\n's, where a final '\n'
   * ends the last line instead of starting an empty one.
   */
  function LinesFrom(s: string, i: nat): (ls: seq<string>)
    requires i <= |s|
    ensures i == |s| <==> ls == []
    decreases |s| - i
  {
    if i == |s| then []
    else
      var k := NextNewline(s, i);
      if k == |s| then [s[i..]] else [s[i..k]] + LinesFrom(s, k + 1)
  }

  /** `str::lines` on a whole text. */
  function Lines(s: string): (ls: seq<string>)
    ensures ls == [] <==> s == []
  {
    LinesFrom(s, 0)
  }

  /** One step of `LinesFrom`: the line up to the next '\n', then the lines past it. */
  lemma LinesFromUnfold(s: string, i: nat)
    requires i < |s|
    ensures var k := NextNewline(s, i);
      LinesFrom(s, i) == if k == |s| then [s[i..]] else [s[i..k]] + LinesFrom(s, k + 1)
  {
  }

  /**
   * The first of the lines from `i` runs up to the next '\n', which it does not contain;
   * the lines after it are the lines past that '\n'.
   */
  lemma FirstLineFrom(s: string, i: nat)
    requires i < |s|
    ensures var k := NextNewline(s, i);
      LinesFrom(s, i)[0] == s[i..k] && '\n' !in s[i..k] &&
      LinesFrom(s, i)[1..] == if k == |s| then [] else LinesFrom(s, k + 1)
  {
    FirstLine(s, i);
    LinesFromUnfold(s, i);
  }

  /** When another line follows the first, it starts just past the '\n' that ends the first. */
  lemma LaterLines(s: string, i: nat)
    requires i <= |s| && 1 < |LinesFrom(s, i)|
    ensures var k := NextNewline(s, i);
      k < |s| && LinesFrom(s, k + 1) == LinesFrom(s, i)[1..]
  {
    var k := NextNewline(s, i);
    LinesFromUnfold(s, i);
    assert ([s[i..k]] + LinesFrom(s, k + 1))[1..] == LinesFrom(s, k + 1);
  }

  /** The first of the lines from `i` runs up to the next '\n', which it does not contain. */
  lemma FirstLine(s: string, i: nat)
    requires i < |s|
    ensures var k := NextNewline(s, i);
      LinesFrom(s, i)[0] == s[i..k] && '\n' !in s[i..k]
  {
    var k := NextNewline(s, i);
    LinesFromUnfold(s, i);
    assert forall j :: 0 <= j < k - i ==> s[i..k][j] == s[i + j];
  }

  /** `join(sep)`: the elements of `ls` with `sep` between neighbours. */
  function Join(ls: seq<string>, sep: string): (r: string)
    ensures ls != [] ==> ls[0] <= r
  {
    if |ls| == 0 then []
    else if |ls| == 1 then ls[0]
    else ls[0] + sep + Join(ls[1..], sep)
  }

  /** Joining a line in front of at least one other adds exactly one separator. */
  lemma JoinCons(first: string, rest: seq<string>, sep: string)
    requires rest != []
    ensures Join([first] + rest, sep) == first + sep + Join(rest, sep)
  {
    assert ([first] + rest)[1..] == rest;
  }

  /** The ending that `str::lines` drops: a final '\n', if there is one. */
  function FinalNewline(s: string): string {
    if s != [] && s[|s| - 1] == '\n' then "\n" else ""
  }

  /** Joining the lines from `i` with '\n' gives `s[i..]` back, up to a final '\n'. */
  predicate JoinsBack(s: string, i: nat)
    requires i <= |s|
  {
    Join(LinesFrom(s, i), "\n") + FinalNewline(s[i..]) == s[i..]
  }

  /** Every suffix of a text joins back from its lines. */
  lemma {:induction false} JoinLinesFrom(s: string, i: nat)
    requires i <= |s|
    ensures JoinsBack(s, i)
    decreases |s| - i
  {
    if i < |s| {
      var k := NextNewline(s, i);
      if k + 1 < |s| {
        JoinLinesFrom(s, k + 1);
        JoinLinesNext(s, i, k);
      } else {
        JoinLinesLast(s, i, k);
      }
    } else {
      JoinNoLines(s, i);
    }
  }

  /** Past the end of the text there are no lines and nothing to join. */
  lemma JoinNoLines(s: string, i: nat)
    requires i == |s|
    ensures JoinsBack(s, i)
  {
    assert s[i..] == [] && LinesFrom(s, i) == [];
  }

  /** The lines from `i` when the line at `i` is the last one. */
  lemma JoinLinesLast(s: string, i: nat, k: nat)
    requires i < |s| && k == NextNewline(s, i) && |s| <= k + 1
    ensures JoinsBack(s, i)
  {
    LinesFromUnfold(s, i);
    var line := s[i..k];
    if k == |s| {
      assert s[i..] == line;
    } else {
      SplitAround(s, i, k);
      assert s[i..] == line + "\n";
    }
    assert forall j :: 0 <= j < |line| ==> line[j] == s[i + j];
    JoinLastLine(s[i..], line);
  }

  /** The lines from `i` when more lines follow the '\n' at `k`. */
  lemma JoinLinesNext(s: string, i: nat, k: nat)
    requires i <= k && k + 1 < |s| && k == NextNewline(s, i)
    requires JoinsBack(s, k + 1)
    ensures JoinsBack(s, i)
  {
    LinesFromUnfold(s, i);
    SplitAround(s, i, k);
    assert [s[k]] == "\n";
    JoinLinesStep(s[i..], s[i..k], s[k + 1..], LinesFrom(s, i), LinesFrom(s, k + 1));
  }

  /** The last line, with or without the '\n' that ends it, joins back to itself. */
  lemma JoinLastLine(whole: string, line: string)
    requires '\n' !in line && (whole == line || whole == line + "\n")
    ensures Join([line], "\n") + FinalNewline(whole) == whole
  {
    if whole == line && line != [] {
      assert line[|line| - 1] in line;
    }
  }

  /** `s[i..]` is the text up to `k`, the character at `k`, and the text after it. */
  lemma SplitAround(s: string, i: nat, k: nat)
    requires i <= k < |s|
    ensures s[i..] == s[i..k] + [s[k]] + s[k + 1..]
  {
  }

  /** One line and its '\n' in front of lines that join back to the rest of the text. */
  lemma JoinLinesStep(whole: string, first: string, tail: string, ls: seq<string>, tailLines: seq<string>)
    requires tail != [] && whole == first + "\n" + tail && ls == [first] + tailLines && tailLines != []
    requires Join(tailLines, "\n") + FinalNewline(tail) == tail
    ensures Join(ls, "\n") + FinalNewline(whole) == whole
  {
    assert whole[|whole| - 1] == tail[|tail| - 1];
    var rest := Join(tailLines, "\n");
    calc {
      Join(ls, "\n") + FinalNewline(whole);
      == { JoinCons(first, tailLines, "\n"); }
      (first + "\n" + rest) + FinalNewline(tail);
      == (first + "\n") + (rest + FinalNewline(tail));
      == whole;
    }
  }

  /** Joining the lines of a text with '\n' gives the text back, up to a final '\n'. */
  lemma JoinLines(s: string)
    ensures Join(Lines(s), "\n") + FinalNewline(s) == s
  {
    JoinLinesFrom(s, 0);
    assert s[0..] == s;
  }

  /** `p` is a position where `key` occurs in `s`. */
  predicate OccursAt(s: string, key: string, p: nat) {
    p + |key| <= |s| && s[p..p + |key|] == key
  }

  /**
   * `s[i..].match_indices(key)`, shifted by `i`: scanning left to right, every occurrence
   * of `key` that starts after the end of the previous one.
   */
  function MatchesFrom(s: string, key: string, i: nat): seq<nat>
    requires |key| > 0 && i <= |s|
    decreases |s| - i
  {
    if i + |key| > |s| then []
    else if s[i..i + |key|] == key then [i] + MatchesFrom(s, key, i + |key|)
    else MatchesFrom(s, key, i + 1)
  }

  /** Every position the scan lists is at or after `i` and starts an occurrence of `key`. */
  lemma {:induction false} MatchesFromSound(s: string, key: string, i: nat)
    requires |key| > 0 && i <= |s|
    ensures forall j :: 0 <= j < |MatchesFrom(s, key, i)| ==>
      i <= MatchesFrom(s, key, i)[j] && OccursAt(s, key, MatchesFrom(s, key, i)[j])
    decreases |s| - i
  {
    if i + |key| > |s| {
    } else if s[i..i + |key|] == key {
      MatchesFromSound(s, key, i + |key|);
    } else {
      MatchesFromSound(s, key, i + 1);
    }
  }

  /** `s.match_indices(key)`: the starts of the non-overlapping occurrences of `key`. */
  function MatchIndices(s: string, key: string): (ms: seq<nat>)
    requires |key| > 0
    ensures forall j :: 0 <= j < |ms| ==> OccursAt(s, key, ms[j])
  {
    MatchesFromSound(s, key, 0);
    MatchesFrom(s, key, 0)
  }

  /** Each position in `ms` is at least `gap` past the one before it. */
  predicate Spaced(ms: seq<nat>, gap: nat) {
    forall a, b :: 0 <= a < b < |ms| ==> ms[a] + gap <= ms[b]
  }

  /** Position `p` lies inside one of the occurrences listed in `ms`. */
  predicate Covered(ms: seq<nat>, key: string, p: nat) {
    exists j :: 0 <= j < |ms| && ms[j] <= p < ms[j] + |key|
  }

  /**
   * The scan finds occurrences in increasing order without overlap, and misses none except
   * those that overlap an occurrence it found.
   */
  lemma MatchesFromSpec(s: string, key: string, i: nat)
    requires |key| > 0 && i <= |s|
    ensures Spaced(MatchesFrom(s, key, i), |key|)
    ensures forall p {:trigger Covered(MatchesFrom(s, key, i), key, p)} ::
      i <= p && OccursAt(s, key, p) ==> Covered(MatchesFrom(s, key, i), key, p)
  {
    MatchesSpaced(s, key, i);
    MatchesCover(s, key, i);
  }

  /** The positions the scan lists are at least `|key|` apart. */
  lemma {:induction false} MatchesSpaced(s: string, key: string, i: nat)
    requires |key| > 0 && i <= |s|
    ensures Spaced(MatchesFrom(s, key, i), |key|)
    decreases |s| - i
  {
    if i + |key| > |s| {
    } else if s[i..i + |key|] == key {
      MatchesSpaced(s, key, i + |key|);
      MatchesFromSound(s, key, i + |key|);
      SpacedCons(i, MatchesFrom(s, key, i + |key|), |key|);
    } else {
      MatchesSpaced(s, key, i + 1);
    }
  }

  /** A position at least `gap` before every element of a spaced list keeps it spaced. */
  lemma SpacedCons(i: nat, rest: seq<nat>, gap: nat)
    requires Spaced(rest, gap)
    requires forall j :: 0 <= j < |rest| ==> i + gap <= rest[j]
    ensures Spaced([i] + rest, gap)
  {
    var ms := [i] + rest;
    forall a, b | 0 <= a < b < |ms| ensures ms[a] + gap <= ms[b] {
      assert ms[b] == rest[b - 1];
      if a > 0 {
        assert ms[a] == rest[a - 1];
      }
    }
  }

  /** Every occurrence from `i` on overlaps a position the scan lists. */
  lemma {:induction false} MatchesCover(s: string, key: string, i: nat)
    requires |key| > 0 && i <= |s|
    ensures forall p {:trigger Covered(MatchesFrom(s, key, i), key, p)} ::
      i <= p && OccursAt(s, key, p) ==> Covered(MatchesFrom(s, key, i), key, p)
    decreases |s| - i
  {
    var ms := MatchesFrom(s, key, i);
    if i + |key| > |s| {
    } else if s[i..i + |key|] == key {
      var rest := MatchesFrom(s, key, i + |key|);
      MatchesCover(s, key, i + |key|);
      assert ms == [i] + rest;
      forall p | i <= p && OccursAt(s, key, p) ensures Covered(ms, key, p) {
        if p < i + |key| {
          assert ms[0] <= p < ms[0] + |key|;
        } else {
          CoveredCons(i, rest, key, p);
        }
      }
    } else {
      MatchesCover(s, key, i + 1);
      forall p | i <= p && OccursAt(s, key, p) ensures Covered(ms, key, p) {
        assert p != i;
        assert Covered(MatchesFrom(s, key, i + 1), key, p);
      }
    }
  }

  /** A position covered by a list stays covered when another position is put in front. */
  lemma CoveredCons(i: nat, rest: seq<nat>, key: string, p: nat)
    requires Covered(rest, key, p)
    ensures Covered([i] + rest, key, p)
  {
    var j :| 0 <= j < |rest| && rest[j] <= p < rest[j] + |key|;
    assert ([i] + rest)[j + 1] == rest[j];
  }

  /** Matching a one-character key looks at one character at a time. */
  lemma MatchesOneChar(s: string, c: char, i: nat)
    requires i <= |s|
    ensures MatchesFrom(s, [c], i) ==
      if i == |s| then [] else (if s[i] == c then [i] else []) + MatchesFrom(s, [c], i + 1)
  {
    if i < |s| {
      assert s[i..i + 1] == [s[i]];
    }
  }

  /** The positions of the '\n's at or after `i`, in increasing order. */
  function NewlinesFrom(s: string, i: nat): seq<nat>
    requires i <= |s|
    decreases |s| - i
  {
    if i == |s| then [] else (if s[i] == '\n' then [i] else []) + NewlinesFrom(s, i + 1)
  }

  /** Scanning for the key "\n" lists exactly the positions of the '\n's. */
  lemma {:induction false} NewlineMatches(s: string, i: nat)
    requires i <= |s|
    ensures MatchesFrom(s, "\n", i) == NewlinesFrom(s, i)
    decreases |s| - i
  {
    MatchesOneChar(s, '\n', i);
    if i < |s| {
      NewlineMatches(s, i + 1);
    }
  }

  /** There are exactly as many positions listed as `s[i..]` holds '\n's. */
  lemma {:induction false} NewlineTotal(s: string, i: nat)
    requires i <= |s|
    ensures |NewlinesFrom(s, i)| == multiset(s[i..])['\n']
    decreases |s| - i
  {
    if i < |s| {
      NewlineTotal(s, i + 1);
      assert s[i..] == [s[i]] + s[i + 1..];
    }
  }

  /** The j-th position listed holds a '\n' preceded, from `i` on, by exactly j others. */
  lemma {:induction false} NewlineRank(s: string, i: nat, j: nat)
    requires i <= |s| && j < |NewlinesFrom(s, i)|
    ensures var m := NewlinesFrom(s, i)[j];
      i <= m < |s| && s[m] == '\n' && multiset(s[i..m])['\n'] == j
    decreases |s| - i
  {
    var ms := NewlinesFrom(s, i);
    if s[i] == '\n' && j == 0 {
      assert ms[0] == i && s[i..i] == [];
    } else {
      var rest := NewlinesFrom(s, i + 1);
      var j' := if s[i] == '\n' then j - 1 else j;
      assert ms[j] == rest[j'];
      NewlineRank(s, i + 1, j');
      CountStep(s, i, ms[j], j');
    }
  }

  /** Counting the '\n's of `s[i..m]` is counting those of `s[i + 1..m]` and then `s[i]`. */
  lemma CountStep(s: string, i: nat, m: nat, n: nat)
    requires i < m <= |s| && multiset(s[i + 1..m])['\n'] == n
    ensures multiset(s[i..m])['\n'] == n + (if s[i] == '\n' then 1 else 0)
  {
    assert s[i..m] == [s[i]] + s[i + 1..m];
  }

  /** `String::remove(i)`: the text without its character at `i`. */
  function Removed(s: string, i: nat): (r: string)
    requires i < |s|
    ensures |r| == |s| - 1
    ensures forall j :: 0 <= j < i ==> r[j] == s[j]
    ensures forall j :: i <= j < |r| ==> r[j] == s[j + 1]
    ensures multiset(r) + multiset{s[i]} == multiset(s)
  {
    assert s == s[..i] + [s[i]] + s[i + 1..];
    s[..i] + s[i + 1..]
  }

  /** `String::insert(i, c)`: the text with `c` placed before its character at `i`. */
  function Inserted(s: string, i: nat, c: char): (r: string)
    requires i <= |s|
    ensures |r| == |s| + 1 && r[i] == c
    ensures forall j :: 0 <= j < i ==> r[j] == s[j]
    ensures forall j :: i < j < |r| ==> r[j] == s[j - 1]
    ensures multiset(r) == multiset(s) + multiset{c}
  {
    assert s == s[..i] + s[i..];
    s[..i] + [c] + s[i..]
  }

  /** Removing what was just inserted at the same place restores the text. */
  lemma RemoveUndoesInsert(s: string, i: nat, c: char)
    requires i <= |s|
    ensures Removed(Inserted(s, i, c), i) == s
  {
  }

  /** `s.replace(c, "")`: the text without any occurrence of `c`. */
  function Without(s: string, c: char): (r: string)
    ensures c !in r
    ensures multiset(r) == multiset(s)[c := 0]
    ensures c !in s ==> r == s
  {
    if s == [] then []
    else
      assert s == [s[0]] + s[1..];
      (if s[0] == c then [] else [s[0]]) + Without(s[1..], c)
  }

  /**
   * Dropping `c` works piece by piece, so the characters that remain keep their order: with
   * `Without`'s own contract on one-character texts, this determines `Without` completely.
   */
  lemma {:induction false} WithoutAppend(a: string, b: string, c: char)
    ensures Without(a + b, c) == Without(a, c) + Without(b, c)
    decreases |a|
  {
    if a == [] {
      assert a + b == b;
    } else {
      var ab := a + b;
      assert ab[0] == a[0] && ab[1..] == a[1..] + b;
      WithoutStep(ab, c);
      WithoutStep(a, c);
      WithoutAppend(a[1..], b, c);
      var head := if a[0] == c then [] else [a[0]];
      Regroup(Without(ab, c), Without(a, c), head, Without(a[1..], c), Without(b, c));
    }
  }

  /** The step of `WithoutAppend` on plain sequences: `h + (x + y)` is `(h + x) + y`. */
  lemma Regroup(whole: string, front: string, h: string, x: string, y: string)
    requires whole == h + (x + y) && front == h + x
    ensures whole == front + y
  {
  }

  /** One step of `Without`: the first character, unless it is `c`, then the rest. */
  lemma WithoutStep(s: string, c: char)
    requires s != []
    ensures Without(s, c) == (if s[0] == c then [] else [s[0]]) + Without(s[1..], c)
  {
  }
}
