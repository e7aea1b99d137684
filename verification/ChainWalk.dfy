/**
 What `draw_page_path` in main.py computes, as a function of the start
 page's name, the names drawn by earlier walks and a first-link oracle
 (page name to the href `get_first_link` returns for it, or nothing).

 The loop keeps the road of names, a step counter equal to the road's
 length minus one, and the current page, which is always the road's last
 entry. At the top of each round it stops when the current page is the
 target; otherwise it asks for the first link and stops when there is
 none, when more than 100 steps were taken, or when the road already holds
 a repeat. It then appends the linked page and stops if the page it just
 left was drawn by an earlier walk.
 */
module ChainWalk {
  import opened Wrappers
  import opened WikiPages

  const Target := "Philosophy"
  /** The step counter is compared with this value (`count_pages > 100`). */
  const StepCeiling := 100
  /** The longest road the loop can build: start page plus 101 steps. */
  const MaxRoad := StepCeiling + 2

  /** Why a walk ended. */
  datatype StopReason = ReachedTarget | DeadEnd | LimitReached | CycleDetected | AlreadyDrawn

  /** The road of page names, the href followed at each step, and why the walk ended. */
  datatype Walk = Walk(road: seq<string>, hrefs: seq<string>, stop: StopReason)

  /** `len(road) != len(set(road))`. */
  predicate HasDuplicate(s: seq<string>)
  {
    exists i, j :: 0 <= i < j < |s| && s[i] == s[j]
  }

  /** The walk that continues from a partial road whose last entry is the current page. */
  function WalkFrom(road: seq<string>, hrefs: seq<string>, drawn: seq<string>,
                    firstLink: string -> Option<string>): (w: Walk)
    requires 1 <= |road| <= MaxRoad && |hrefs| == |road| - 1
    ensures |road| <= |w.road| <= MaxRoad && |w.hrefs| == |w.road| - 1
    decreases MaxRoad - |road|
  {
    var page := road[|road| - 1];
    if page == Target then Walk(road, hrefs, ReachedTarget)
    else match firstLink(page)
      case None => Walk(road, hrefs, DeadEnd)
      case Some(href) =>
        if |road| - 1 > StepCeiling then Walk(road, hrefs, LimitReached)
        else if HasDuplicate(road) then Walk(road, hrefs, CycleDetected)
        else
          var road' := road + [UrlToName(href)];
          var hrefs' := hrefs + [href];
          if page in drawn then Walk(road', hrefs', AlreadyDrawn)
          else WalkFrom(road', hrefs', drawn, firstLink)
  }

  /** A round that stops leaves the road as it is. */
  lemma WalkFromStops(road: seq<string>, hrefs: seq<string>, drawn: seq<string>, firstLink: string -> Option<string>)
    requires 1 <= |road| <= MaxRoad && |hrefs| == |road| - 1
    requires var page := road[|road| - 1];
      page == Target || firstLink(page).None? || |road| - 1 > StepCeiling || HasDuplicate(road)
    ensures var w := WalkFrom(road, hrefs, drawn, firstLink);
      w.road == road && w.hrefs == hrefs && w.stop != AlreadyDrawn
  {
  }

  /** A round that goes on appends the linked page, then stops if the page left was drawn before. */
  lemma WalkFromSteps(road: seq<string>, hrefs: seq<string>, drawn: seq<string>, firstLink: string -> Option<string>)
    requires 1 <= |road| <= MaxRoad && |hrefs| == |road| - 1
    requires var page := road[|road| - 1];
      page != Target && firstLink(page).Some? && |road| - 1 <= StepCeiling && !HasDuplicate(road)
    ensures var page := road[|road| - 1]; var href := firstLink(page).value;
      var road', hrefs' := road + [UrlToName(href)], hrefs + [href];
      |road'| <= MaxRoad &&
      WalkFrom(road, hrefs, drawn, firstLink)
        == if page in drawn then Walk(road', hrefs', AlreadyDrawn) else WalkFrom(road', hrefs', drawn, firstLink)
  {
  }

  /** The remaining walk only appends to the road and to the hrefs followed so far. */
  lemma {:induction false} WalkFromExtends(road: seq<string>, hrefs: seq<string>, drawn: seq<string>,
                                           firstLink: string -> Option<string>)
    requires 1 <= |road| <= MaxRoad && |hrefs| == |road| - 1
    ensures var w := WalkFrom(road, hrefs, drawn, firstLink);
      w.road[..|road|] == road && w.hrefs[..|hrefs|] == hrefs
    decreases MaxRoad - |road|
  {
    var page := road[|road| - 1];
    if page != Target && firstLink(page).Some? && |road| - 1 <= StepCeiling && !HasDuplicate(road) {
      var href := firstLink(page).value;
      var road', hrefs' := road + [UrlToName(href)], hrefs + [href];
      if page !in drawn {
        WalkFromExtends(road', hrefs', drawn, firstLink);
        var w := WalkFrom(road', hrefs', drawn, firstLink);
        assert w.road[..|road|] == w.road[..|road'|][..|road|];
        assert w.hrefs[..|hrefs|] == w.hrefs[..|hrefs'|][..|hrefs|];
      }
    }
  }

  /** The walk from a start page. */
  function WalkPath(start: string, drawn: seq<string>, firstLink: string -> Option<string>): (w: Walk)
    ensures 1 <= |w.road| <= MaxRoad && w.road[0] == start
  {
    WalkFromExtends([start], [], drawn, firstLink);
    WalkFrom([start], [], drawn, firstLink)
  }

  /** Each entry after the first is the name of the first link of the entry before it. */
  ghost predicate FollowsFirstLinks(road: seq<string>, hrefs: seq<string>, firstLink: string -> Option<string>)
  {
    |road| == |hrefs| + 1 &&
    forall i :: 0 <= i < |hrefs| ==> firstLink(road[i]) == Some(hrefs[i]) && road[i + 1] == UrlToName(hrefs[i])
  }

  /** Every page the walk has stepped away from: not the target, not drawn before. */
  ghost predicate LeftPagesFresh(road: seq<string>, n: int, drawn: seq<string>)
    requires n <= |road|
  {
    forall i :: 0 <= i < n ==> road[i] != Target && road[i] !in drawn
  }

  /** The remaining walk keeps following first links. */
  lemma {:induction false} WalkFromFollows(road: seq<string>, hrefs: seq<string>, drawn: seq<string>,
                                           firstLink: string -> Option<string>)
    requires 1 <= |road| <= MaxRoad && |hrefs| == |road| - 1
    requires FollowsFirstLinks(road, hrefs, firstLink)
    ensures var w := WalkFrom(road, hrefs, drawn, firstLink); FollowsFirstLinks(w.road, w.hrefs, firstLink)
    decreases MaxRoad - |road|
  {
    var page := road[|road| - 1];
    if page != Target && firstLink(page).Some? && |road| - 1 <= StepCeiling && !HasDuplicate(road) {
      var href := firstLink(page).value;
      var road', hrefs' := road + [UrlToName(href)], hrefs + [href];
      assert FollowsFirstLinks(road', hrefs', firstLink);
      if page !in drawn {
        WalkFromFollows(road', hrefs', drawn, firstLink);
      }
    }
  }

  /** The remaining walk only extends a road whose entries are all distinct. */
  lemma {:induction false} WalkFromDistinct(road: seq<string>, hrefs: seq<string>, drawn: seq<string>,
                                            firstLink: string -> Option<string>)
    requires 1 <= |road| <= MaxRoad && |hrefs| == |road| - 1
    requires !HasDuplicate(road[..|road| - 1])
    ensures var w := WalkFrom(road, hrefs, drawn, firstLink); !HasDuplicate(w.road[..|w.road| - 1])
    decreases MaxRoad - |road|
  {
    var page := road[|road| - 1];
    if page != Target && firstLink(page).Some? && |road| - 1 <= StepCeiling && !HasDuplicate(road) {
      var href := firstLink(page).value;
      var road', hrefs' := road + [UrlToName(href)], hrefs + [href];
      assert road'[..|road'| - 1] == road;
      if page !in drawn {
        WalkFromDistinct(road', hrefs', drawn, firstLink);
      }
    }
  }

  /** The remaining walk steps away only from pages that are neither the target nor drawn before. */
  lemma {:induction false} WalkFromLeftPages(road: seq<string>, hrefs: seq<string>, drawn: seq<string>,
                                             firstLink: string -> Option<string>)
    requires 1 <= |road| <= MaxRoad && |hrefs| == |road| - 1
    requires LeftPagesFresh(road, |road| - 1, drawn)
    ensures var w := WalkFrom(road, hrefs, drawn, firstLink);
      && (w.stop != AlreadyDrawn ==> LeftPagesFresh(w.road, |w.road| - 1, drawn))
      && (w.stop == AlreadyDrawn ==>
            && |w.road| >= 2 && w.road[|w.road| - 2] in drawn && w.road[|w.road| - 2] != Target
            && LeftPagesFresh(w.road, |w.road| - 2, drawn))
    decreases MaxRoad - |road|
  {
    var page := road[|road| - 1];
    if page != Target && firstLink(page).Some? && |road| - 1 <= StepCeiling && !HasDuplicate(road) {
      var href := firstLink(page).value;
      var road', hrefs' := road + [UrlToName(href)], hrefs + [href];
      if page !in drawn {
        assert LeftPagesFresh(road', |road'| - 1, drawn);
        WalkFromLeftPages(road', hrefs', drawn, firstLink);
      } else {
        assert road'[|road'| - 2] == page;
      }
    }
  }

  /** How the remaining walk ends tells where it stands. */
  lemma {:induction false} WalkFromStop(road: seq<string>, hrefs: seq<string>, drawn: seq<string>,
                                        firstLink: string -> Option<string>)
    requires 1 <= |road| <= MaxRoad && |hrefs| == |road| - 1
    ensures var w := WalkFrom(road, hrefs, drawn, firstLink); var last := w.road[|w.road| - 1];
      && (w.stop == ReachedTarget ==> last == Target)
      && (w.stop in {DeadEnd, LimitReached, CycleDetected} ==> last != Target && firstLink(last).Some? != (w.stop == DeadEnd))
      && (w.stop == LimitReached ==> |w.road| == MaxRoad)
      && (w.stop == CycleDetected ==> |w.road| < MaxRoad && HasDuplicate(w.road))
    decreases MaxRoad - |road|
  {
    var page := road[|road| - 1];
    var w := WalkFrom(road, hrefs, drawn, firstLink);
    if page == Target {
      assert w == Walk(road, hrefs, ReachedTarget);
    } else if firstLink(page).None? {
      assert w == Walk(road, hrefs, DeadEnd);
    } else if |road| - 1 > StepCeiling {
      assert w == Walk(road, hrefs, LimitReached);
    } else if HasDuplicate(road) {
      assert w == Walk(road, hrefs, CycleDetected);
    } else {
      var href := firstLink(page).value;
      var road', hrefs' := road + [UrlToName(href)], hrefs + [href];
      if page in drawn {
        assert w == Walk(road', hrefs', AlreadyDrawn);
      } else {
        WalkFromStop(road', hrefs', drawn, firstLink);
        assert w == WalkFrom(road', hrefs', drawn, firstLink);
      }
    }
  }

  /** The road starts at the start page, and each later entry follows the first link of the one before. */
  lemma RoadFollowsFirstLinks(start: string, drawn: seq<string>, firstLink: string -> Option<string>)
    ensures var w := WalkPath(start, drawn, firstLink);
      w.road[0] == start && FollowsFirstLinks(w.road, w.hrefs, firstLink)
  {
    WalkFromFollows([start], [], drawn, firstLink);
  }

  /** The road has between 1 and 102 entries: the loop allows 101 steps. */
  lemma RoadLength(start: string, drawn: seq<string>, firstLink: string -> Option<string>)
    ensures var w := WalkPath(start, drawn, firstLink);
      1 <= |w.road| <= MaxRoad && (w.stop == LimitReached ==> |w.road| == MaxRoad)
  {
    WalkFromStop([start], [], drawn, firstLink);
  }

  /**
   All entries but the last are pairwise distinct; a repeat is appended
   first and only noticed at the top of the next round.
   */
  lemma RoadDistinctButLast(start: string, drawn: seq<string>, firstLink: string -> Option<string>)
    ensures var w := WalkPath(start, drawn, firstLink);
      !HasDuplicate(w.road[..|w.road| - 1])
      && (w.stop == CycleDetected ==> w.road[|w.road| - 1] in w.road[..|w.road| - 1])
  {
    WalkFromDistinct([start], [], drawn, firstLink);
    WalkFromStop([start], [], drawn, firstLink);
    var w := WalkPath(start, drawn, firstLink);
    if w.stop == CycleDetected {
      var n := |w.road|;
      var i, j :| 0 <= i < j < n && w.road[i] == w.road[j];
      if j == n - 1 {
        assert w.road[..n - 1][i] == w.road[n - 1];
      }
    }
  }

  /** A sequence without repeats has as many distinct elements as entries. */
  lemma {:induction false} DistinctCount(s: seq<string>)
    requires !HasDuplicate(s)
    ensures |set x | x in s| == |s|
    decreases |s|
  {
    if |s| > 0 {
      var init := s[..|s| - 1];
      assert !HasDuplicate(init) by {
        forall i, j | 0 <= i < j < |init| ensures init[i] != init[j] {
          assert init[i] == s[i] && init[j] == s[j];
        }
      }
      DistinctCount(init);
      assert s[|s| - 1] !in init by {
        forall i | 0 <= i < |init| ensures init[i] != s[|s| - 1] {
          assert init[i] == s[i];
        }
      }
      assert (set x | x in s) == (set x | x in init) + {s[|s| - 1]} by {
        assert s == init + [s[|s| - 1]];
      }
    }
  }

  /** A sequence never has more distinct entries than entries. */
  lemma {:induction false} SetSizeAtMost(s: seq<string>)
    ensures |set x | x in s| <= |s|
    decreases |s|
  {
    if |s| > 0 {
      var init := s[..|s| - 1];
      SetSizeAtMost(init);
      assert (set x | x in s) == (set x | x in init) + {s[|s| - 1]} by {
        assert s == init + [s[|s| - 1]];
      }
    }
  }

  /** A sequence with a repeat has fewer distinct entries than entries. */
  lemma DuplicateCount(s: seq<string>)
    requires HasDuplicate(s)
    ensures |set x | x in s| < |s|
  {
    var i, j :| 0 <= i < j < |s| && s[i] == s[j];
    var t := s[..j] + s[j + 1..];
    SetSizeAtMost(t);
    assert (set x | x in s) == (set x | x in t) by {
      forall x | x in s ensures x in t {
        var k :| 0 <= k < |s| && s[k] == x;
        if k < j {
          assert t[k] == x;
        } else if k == j {
          assert t[i] == x;
        } else {
          assert t[k - 1] == x;
        }
      }
      forall x | x in t ensures x in s {
        var k :| 0 <= k < |t| && t[k] == x;
        if k < j {
          assert s[k] == x;
        } else {
          assert s[k + 1] == x;
        }
      }
    }
  }

  /** `HasDuplicate` is the loop's test `len(road) != len(set(road))`, on every sequence. */
  lemma DuplicateIffSetShorter(s: seq<string>)
    ensures HasDuplicate(s) <==> |set x | x in s| != |s|
  {
    if HasDuplicate(s) {
      DuplicateCount(s);
    } else {
      DistinctCount(s);
    }
  }

  /** A walk stopped by a cycle holds one name twice: as many distinct names as steps taken. */
  lemma CycleRoadCount(start: string, drawn: seq<string>, firstLink: string -> Option<string>)
    requires WalkPath(start, drawn, firstLink).stop == CycleDetected
    ensures var road := WalkPath(start, drawn, firstLink).road;
      |set x | x in road| == |road| - 1
  {
    RoadDistinctButLast(start, drawn, firstLink);
    var road := WalkPath(start, drawn, firstLink).road;
    var init := road[..|road| - 1];
    DistinctCount(init);
    assert road == init + [road[|road| - 1]];
    assert (set x | x in road) == (set x | x in init);
  }

  /** How a walk ends tells where it stands. */
  lemma StopReasons(start: string, drawn: seq<string>, firstLink: string -> Option<string>)
    ensures var w := WalkPath(start, drawn, firstLink); var last := w.road[|w.road| - 1];
      && (w.stop == ReachedTarget <==> last == Target && w.stop != AlreadyDrawn)
      && (w.stop == DeadEnd <==> last != Target && firstLink(last).None? && w.stop != AlreadyDrawn)
      && (w.stop == AlreadyDrawn ==> |w.road| >= 2 && w.road[|w.road| - 2] in drawn)
      && (forall i :: 0 <= i < |w.road| - 1 ==> w.road[i] != Target)
  {
    WalkFromStop([start], [], drawn, firstLink);
    WalkFromLeftPages([start], [], drawn, firstLink);
  }

  /** Only the page the walk stopped on, or the drawn page it stopped after, can have been drawn before. */
  lemma EarlierPagesNotDrawn(start: string, drawn: seq<string>, firstLink: string -> Option<string>)
    ensures var w := WalkPath(start, drawn, firstLink);
      var stepped := if w.stop == AlreadyDrawn then |w.road| - 2 else |w.road| - 1;
      forall i :: 0 <= i < stepped ==> w.road[i] !in drawn
  {
    WalkFromLeftPages([start], [], drawn, firstLink);
  }

  /** A walk from the target itself is just the target. */
  lemma WalkFromTarget(drawn: seq<string>, firstLink: string -> Option<string>)
    ensures WalkPath(Target, drawn, firstLink) == Walk([Target], [], ReachedTarget)
  {
  }

  /**
   A start page drawn by an earlier walk that has a first link yields a road
   of two entries: the test looks at the page just left, not the new one.
   */
  lemma DrawnStartTakesOneStep(start: string, drawn: seq<string>, firstLink: string -> Option<string>)
    requires start != Target && start in drawn && firstLink(start).Some?
    ensures WalkPath(start, drawn, firstLink).road == [start, UrlToName(firstLink(start).value)]
  {
    assert !HasDuplicate([start]);
  }
}
