/**
 The parenthesis test of `WikiPage.is_substring_enclosed_in_brackets`.

 The source compiles three regular expressions, for one, two and three
 nested levels of round brackets:

   depth 1:  `\(` N* `\)`
   depth 2:  `\(` N* (depth 1) N* `\)`
   depth 3:  `\(` N* (depth 2) N* `\)`

 where N is any character but `)`. It collects every match `re.findall`
 returns for each of them and asks whether the link's text occurs in one.
 Here `Span(k, s, i, e)` says that pattern k matches `s[i..e]` exactly,
 `MatchAt` is a hand-written matcher for it, and `FindAll` scans like
 `re.findall`: leftmost match first, resuming after its end.
 */
module Brackets {
  import opened Wrappers
  import opened Text

  /** No `)` in `s[a..b]`. */
  predicate NoClose(s: string, a: int, b: int)
    requires 0 <= a && b <= |s|
  {
    forall j :: a <= j < b ==> s[j] != ')'
  }

  /** Pattern `k` (1 to 3 nesting levels) matches exactly `s[i..e]`. */
  ghost predicate Span(k: nat, s: string, i: int, e: int)
    decreases k, 1
  {
    && 0 <= i && i + 2 <= e <= |s|
    && s[i] == '(' && s[e - 1] == ')'
    && if k <= 1 then NoClose(s, i + 1, e - 1)
       else exists p, q :: Nested(k, s, i, e, p, q)
  }

  /**
   For the pattern of depth `k` > 1 matching `s[i..e]`: the inner pattern of
   depth `k - 1` matches `s[p..q]`, with no `)` between the brackets.
   */
  ghost predicate Nested(k: nat, s: string, i: int, e: int, p: int, q: int)
    requires 1 < k && 0 <= i && e <= |s|
    decreases k, 0
  {
    i + 1 <= p < q <= e - 1 && NoClose(s, i + 1, p) && Span(k - 1, s, p, q) && NoClose(s, q, e - 1)
  }

  /** The first `)` at or after `from`. */
  function NextClose(s: string, from: nat): (r: Option<nat>)
    requires from <= |s|
    ensures r.Some? ==> from <= r.value < |s| && s[r.value] == ')' && NoClose(s, from, r.value)
    ensures r.None? ==> NoClose(s, from, |s|)
    decreases |s| - from
  {
    if from == |s| then None
    else if s[from] == ')' then Some(from)
    else NextClose(s, from + 1)
  }

  /** The first `(` at or after `from`, provided no `)` comes before it. */
  function NextOpen(s: string, from: nat): (r: Option<nat>)
    requires from <= |s|
    ensures r.Some? ==> from <= r.value < |s| && s[r.value] == '(' && NoClose(s, from, r.value)
    ensures r.Some? ==> forall j :: from <= j < r.value ==> s[j] != '('
    ensures r.None? ==> forall p :: from <= p < |s| && s[p] == '(' ==> !NoClose(s, from, p)
    decreases |s| - from
  {
    if from == |s| || s[from] == ')' then None
    else if s[from] == '(' then Some(from)
    else NextOpen(s, from + 1)
  }

  /** Where a match of pattern `k` that starts at `i` ends, if there is one. */
  function MatchAt(k: nat, s: string, i: nat): (r: Option<nat>)
    requires 1 <= k
    ensures r.Some? ==> i + 2 <= r.value <= |s|
    decreases k
  {
    if i >= |s| || s[i] != '(' then None
    else if k == 1 then
      match NextClose(s, i + 1)
      case None => None
      case Some(j) => Some(j + 1)
    else
      match NextOpen(s, i + 1)
      case None => None
      case Some(p) =>
        match MatchAt(k - 1, s, p)
        case None => None
        case Some(q) =>
          match NextClose(s, q)
          case None => None
          case Some(j) => Some(j + 1)
  }

  /** `re.findall(pattern_k, s[from..])`, as the list of matched substrings. */
  function FindAll(k: nat, s: string, from: nat): (r: seq<string>)
    requires 1 <= k && from <= |s|
    ensures 2 * |r| <= |s| - from
    decreases |s| - from
  {
    if from == |s| then []
    else match MatchAt(k, s, from)
      case Some(e) => [s[from..e]] + FindAll(k, s, e)
      case None => FindAll(k, s, from + 1)
  }

  /** Every match of the three patterns in `s`; the source puts them in a set. */
  function AllMatches(s: string): seq<string>
  {
    FindAll(1, s, 0) + FindAll(2, s, 0) + FindAll(3, s, 0)
  }

  /** `is_substring_enclosed_in_brackets(sub, s)`. */
  predicate IsSubstringEnclosedInBrackets(sub: string, s: string)
  {
    exists m :: m in AllMatches(s) && Contains(m, sub)
  }

  /** What `MatchAt` finds is a match. */
  lemma {:induction false} MatchAtSound(k: nat, s: string, i: nat)
    requires 1 <= k && MatchAt(k, s, i).Some?
    ensures Span(k, s, i, MatchAt(k, s, i).value)
    decreases k
  {
    if k > 1 {
      var p := NextOpen(s, i + 1).value;
      MatchAtSound(k - 1, s, p);
      var q := MatchAt(k - 1, s, p).value;
      var e := MatchAt(k, s, i).value;
      assert Nested(k, s, i, e, p, q);
    }
  }

  /**
   A match of pattern `k` stays a match when its start moves left over a
   stretch without `)` to an earlier `(`.
   */
  lemma WidenSpan(k: nat, s: string, p: int, p': int, q: int)
    requires 1 <= k && 0 <= p <= p' && Span(k, s, p', q)
    requires s[p] == '(' && NoClose(s, p, p')
    ensures Span(k, s, p, q)
  {
    if k > 1 {
      var r, t :| Nested(k, s, p', q, r, t);
      assert Nested(k, s, p, q, r, t);
    }
  }

  /** A `)` with no `)` before it, from `from` on, is the one `NextClose` finds. */
  lemma {:induction false} NextCloseAt(s: string, from: nat, j: nat)
    requires from <= j < |s| && s[j] == ')' && NoClose(s, from, j)
    ensures NextClose(s, from) == Some(j)
    decreases j - from
  {
    if from < j {
      assert s[from] != ')';
      NextCloseAt(s, from + 1, j);
    }
  }

  /** The last step of a nested match: the first `)` after the inner match closes the outer one. */
  lemma MatchAtNested(k: nat, s: string, i: nat, e: int, p: nat, q: nat)
    requires 1 < k && 0 <= i && 0 <= e <= |s| && Span(k, s, i, e)
    requires NextOpen(s, i + 1) == Some(p) && MatchAt(k - 1, s, p) == Some(q)
    requires q <= e - 1 && NoClose(s, q, e - 1)
    ensures MatchAt(k, s, i) == Some(e)
  {
    assert s[i] == '(' && s[e - 1] == ')';
    NextCloseAt(s, q, e - 1);
  }

  /** `MatchAt` finds every match: a match starting at `i` is the one it returns. */
  lemma {:induction false} MatchAtComplete(k: nat, s: string, i: nat, e: int)
    requires 1 <= k && Span(k, s, i, e)
    ensures MatchAt(k, s, i) == Some(e)
    decreases k
  {
    if k == 1 {
      NextCloseAt(s, i + 1, e - 1);
    } else {
      var p', q :| Nested(k, s, i, e, p', q);
      assert Span(k - 1, s, p', q) && NoClose(s, i + 1, p');
      assert s[p'] == '(';
      var p := NextOpen(s, i + 1).value;
      assert p <= p';
      WidenSpan(k - 1, s, p, p', q);
      MatchAtComplete(k - 1, s, p, q);
      MatchAtNested(k, s, i, e, p, q);
    }
  }

  /** Each pattern has at most one match starting at a given position. */
  lemma SpanEndUnique(k: nat, s: string, i: nat, e: int, e': int)
    requires 1 <= k && Span(k, s, i, e) && Span(k, s, i, e')
    ensures e == e'
  {
    MatchAtComplete(k, s, i, e);
    MatchAtComplete(k, s, i, e');
  }

  /** Everything `findall` returns is a match lying in the scanned part of `s`. */
  lemma {:induction false} FindAllSound(k: nat, s: string, from: nat, m: string)
    requires 1 <= k && from <= |s| && m in FindAll(k, s, from)
    ensures exists i, e :: from <= i && Span(k, s, i, e) && m == s[i..e]
    decreases |s| - from
  {
    match MatchAt(k, s, from)
    case Some(e) =>
      if m == s[from..e] {
        MatchAtSound(k, s, from);
      } else {
        FindAllSound(k, s, e, m);
      }
    case None =>
      FindAllSound(k, s, from + 1, m);
  }

  /** `findall` returns nothing exactly when no part of the scanned string matches. */
  lemma {:induction false} FindAllEmptyIff(k: nat, s: string, from: nat)
    requires 1 <= k && from <= |s|
    ensures FindAll(k, s, from) == [] <==> forall i, e :: from <= i ==> !Span(k, s, i, e)
    decreases |s| - from
  {
    if from < |s| {
      FindAllEmptyIff(k, s, from + 1);
      match MatchAt(k, s, from)
      case Some(e) =>
        MatchAtSound(k, s, from);
        assert FindAll(k, s, from) != [];
        assert Span(k, s, from, e);
      case None =>
        forall e | Span(k, s, from, e) ensures false {
          MatchAtComplete(k, s, from, e);
        }
    }
  }

  /**
   An innermost bracket pair `(…)` of `s` is always covered by a depth-1
   match: scanning from any position at or before its `(` either stops on a
   match that ends at its `)`, or skips past matches that end before it.
   */
  lemma {:induction false} InnermostCovered(s: string, from: nat, i: nat, e: int, sub: string)
    requires from <= i && Span(1, s, i, e) && Contains(s[i..e], sub)
    ensures exists m :: m in FindAll(1, s, from) && Contains(m, sub)
    decreases i - from
  {
    match MatchAt(1, s, from)
    case Some(e') =>
      var j := NextClose(s, from + 1).value;
      assert e' == j + 1;
      if e' <= i {
        InnermostCovered(s, e', i, e, sub);
        var m :| m in FindAll(1, s, e') && Contains(m, sub);
        assert m in FindAll(1, s, from);
      } else {
        FirstMatchCovers(s, from, i, e, sub);
      }
    case None =>
      if from == i {
        MatchAtComplete(1, s, i, e);
      } else {
        InnermostCovered(s, from + 1, i, e, sub);
      }
  }

  /** The first depth-1 match from `from`, when it reaches past the `(` at `i`, is the pair at `i`, widened to the left. */
  lemma FirstMatchCovers(s: string, from: nat, i: nat, e: int, sub: string)
    requires from <= i && Span(1, s, i, e) && Contains(s[i..e], sub)
    requires MatchAt(1, s, from).Some? && MatchAt(1, s, from).value > i
    ensures s[from..e] in FindAll(1, s, from) && Contains(s[from..e], sub)
  {
    var j := NextClose(s, from + 1).value;
    assert MatchAt(1, s, from) == Some(j + 1);
    assert s[i] == '(' && i < j;
    assert NoClose(s, i + 1, e - 1) && s[e - 1] == ')';
    assert j == e - 1;
    assert FindAll(1, s, from) == [s[from..e]] + FindAll(1, s, e);
    var m := s[from..e];
    assert m[i - from..] == s[i..e];
    ContainsInSuffix(m, i - from, sub);
  }

  /** Text found in a match is enclosed; the matches are spans of depth 1 to 3. */
  lemma EnclosedSound(sub: string, s: string)
    requires IsSubstringEnclosedInBrackets(sub, s)
    ensures exists k, i, e :: 1 <= k <= 3 && Span(k, s, i, e) && Contains(s[i..e], sub)
  {
    var m :| m in AllMatches(s) && Contains(m, sub);
    var k := if m in FindAll(1, s, 0) then 1 else if m in FindAll(2, s, 0) then 2 else 3;
    FindAllSound(k, s, 0, m);
  }

  /** Nothing is enclosed in a string without an opening bracket. */
  lemma EnclosedNeedsOpen(sub: string, s: string)
    requires IsSubstringEnclosedInBrackets(sub, s)
    ensures '(' in s
  {
    EnclosedSound(sub, s);
    var k, i, e :| 1 <= k <= 3 && Span(k, s, i, e) && Contains(s[i..e], sub);
    assert s[i] in s;
  }

  /** Text inside an innermost `(…)` of `s` is enclosed. */
  lemma InnermostEnclosed(sub: string, s: string, i: nat, e: int)
    requires Span(1, s, i, e) && Contains(s[i..e], sub)
    ensures IsSubstringEnclosedInBrackets(sub, s)
  {
    InnermostCovered(s, 0, i, e, sub);
  }

  /**
   When `s` as a whole is bracketed with up to three nested levels, all of
   its text is enclosed: the first match of that depth is `s` itself.
   */
  lemma WholeSpanEnclosed(k: nat, sub: string, s: string)
    requires 1 <= k <= 3 && Span(k, s, 0, |s|) && Contains(s, sub)
    ensures IsSubstringEnclosedInBrackets(sub, s)
  {
    MatchAtComplete(k, s, 0, |s|);
    assert s[0..|s|] == s;
    assert FindAll(k, s, 0) == [s] + FindAll(k, s, |s|);
    assert s in AllMatches(s);
  }

  /** `findall` finds nothing from a position with no `(` at or after it. */
  lemma {:induction false} FindAllNoOpen(k: nat, s: string, from: nat)
    requires 1 <= k && from <= |s|
    requires forall j :: from <= j < |s| ==> s[j] != '('
    ensures FindAll(k, s, from) == []
    decreases |s| - from
  {
    if from < |s| {
      FindAllNoOpen(k, s, from + 1);
    }
  }

  /**
   The shape of `(x(a)b(c(d)e)`: a depth-2 aside `(c(d)e)` at 6 that the
   depth-2 match starting at 0 runs into.
   */
  predicate OverlapShape(s: string)
  {
    && |s| == 13
    && s[0] == '(' && s[1] == 'x' && s[2] == '(' && s[3] == 'a' && s[4] == ')' && s[5] == 'b' && s[6] == '('
    && s[7] == 'c' && s[8] == '(' && s[9] == 'd' && s[10] == ')' && s[11] == 'e' && s[12] == ')'
  }

  /** The depth-1 matches of the example: `(x(a)` and `(c(d)`. */
  lemma OverlapDepthOne(s: string)
    requires OverlapShape(s)
    ensures FindAll(1, s, 0) == [s[..5], s[6..11]]
  {
    NextCloseAt(s, 1, 4);
    NextCloseAt(s, 7, 10);
    assert MatchAt(1, s, 0) == Some(5);
    assert MatchAt(1, s, 5) == None;
    assert MatchAt(1, s, 6) == Some(11);
    FindAllNoOpen(1, s, 11);
    assert FindAll(1, s, 6) == [s[6..11]];
    assert FindAll(1, s, 5) == FindAll(1, s, 6);
    assert FindAll(1, s, 0) == [s[0..5]] + FindAll(1, s, 5);
  }

  /** The one depth-2 match of the example, `(x(a)b(c(d)`, ends inside the aside `(c(d)e)`. */
  lemma OverlapDepthTwo(s: string)
    requires OverlapShape(s)
    ensures FindAll(2, s, 0) == [s[..11]]
  {
    assert Span(1, s, 2, 5);
    assert Nested(2, s, 0, 11, 2, 5);
    MatchAtComplete(2, s, 0, 11);
    FindAllNoOpen(2, s, 11);
    assert FindAll(2, s, 0) == [s[0..11]] + FindAll(2, s, 11);
  }

  /** A nested pattern cannot match from a `(` that no other `(` follows before the next `)`. */
  lemma NoInnerOpen(k: nat, s: string, i: nat)
    requires 1 < k && i + 1 <= |s| && s[i] == '(' && NextOpen(s, i + 1) == None
    ensures MatchAt(k, s, i) == None
  {
  }

  /** The example has no depth-3 match. */
  lemma OverlapDepthThree(s: string)
    requires OverlapShape(s)
    ensures FindAll(3, s, 0) == []
  {
    NoInnerOpen(2, s, 2);
    NoInnerOpen(2, s, 8);
    NoInnerOpen(3, s, 2);
    NoInnerOpen(3, s, 8);
    assert MatchAt(3, s, 0) == None && MatchAt(3, s, 6) == None;
    FindAllNoOpen(3, s, 9);
    assert FindAll(3, s, 6) == FindAll(3, s, 9) by {
      assert FindAll(3, s, 8) == FindAll(3, s, 9);
      assert FindAll(3, s, 7) == FindAll(3, s, 8);
    }
    assert FindAll(3, s, 3) == FindAll(3, s, 6) by {
      assert FindAll(3, s, 5) == FindAll(3, s, 6);
      assert FindAll(3, s, 4) == FindAll(3, s, 5);
    }
    assert FindAll(3, s, 0) == FindAll(3, s, 3) by {
      assert FindAll(3, s, 2) == FindAll(3, s, 3);
      assert FindAll(3, s, 1) == FindAll(3, s, 2);
    }
  }

  /** No character of `s[a..b]` is `c` when none of `s` between `a` and `b` is. */
  lemma AbsentFromSlice(s: string, c: char, a: nat, b: nat)
    requires a <= b <= |s|
    requires forall j :: a <= j < b ==> s[j] != c
    ensures c !in s[a..b]
  {
    assert forall t :: 0 <= t < b - a ==> s[a..b][t] == s[a + t];
  }

  /** The `e` of the example's aside `(c(d)e)` lies in no match. */
  lemma OverlapNotEnclosed(s: string)
    requires OverlapShape(s)
    ensures !IsSubstringEnclosedInBrackets("e", s)
  {
    OverlapDepthOne(s);
    OverlapDepthTwo(s);
    OverlapDepthThree(s);
    AbsentFromSlice(s, 'e', 0, 11);
    AbsentFromSlice(s, 'e', 0, 5);
    AbsentFromSlice(s, 'e', 6, 11);
    assert AllMatches(s) == [s[..5], s[6..11], s[..11]];
    forall m | m in AllMatches(s) ensures !Contains(m, "e") {
      if Contains(m, "e") {
        ContainsFirst(m, "e");
      }
    }
  }

  /**
   Text inside a balanced aside of depth 2 can go unreported: in
   `(x(a)b(c(d)e)` the depth-2 match `(x(a)b(c(d)` ends inside the aside
   `(c(d)e)` and `findall` resumes after it, so the `e` of the aside is in
   no match.
   */
  lemma DepthTwoAsideMissed()
    ensures var s := "(x(a)b(c(d)e)";
      && Span(2, s, 6, 13) && Contains(s[6..13], "e")
      && !IsSubstringEnclosedInBrackets("e", s)
  {
    var s := "(x(a)b(c(d)e)";
    assert OverlapShape(s);
    assert Span(1, s, 8, 11);
    assert Nested(2, s, 6, 13, 8, 11);
    assert s[6..13][5..][..1] == "e";
    ContainsAt(s[6..13], "e", 5);
    OverlapNotEnclosed(s);
  }
}
