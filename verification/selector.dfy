/** Choosing the window a detached tab is put back into: the last-focused
    window when it qualifies, otherwise the qualifying window with the fewest
    tabs (first in host order on a tie), otherwise none. */
module Selector {
  import opened Wrappers
  import opened Windows

  /** A window the tab may go to when the window `exclude` is the one it is
      leaving. */
  predicate IsCandidate(w: Window, exclude: int)
  {
    IsValidWindow(w) && w.id != exclude
  }

  /** The two `filter` passes over the host's window list: valid windows whose
      id is not `exclude`, in host order. */
  function Candidates(ws: seq<Window>, exclude: int): (r: seq<Window>)
    ensures forall w :: w in r <==> w in ws && IsCandidate(w, exclude)
    ensures |r| <= |ws|
  {
    if |ws| == 0 then []
    else if IsCandidate(ws[0], exclude) then [ws[0]] + Candidates(ws[1..], exclude)
    else Candidates(ws[1..], exclude)
  }

  /** The windows of `s` holding exactly `k` tabs, in the order of `s`. */
  function WithTabs(s: seq<Window>, k: nat): (r: seq<Window>)
    ensures forall w :: w in r <==> w in s && w.tabCount == k
  {
    if |s| == 0 then []
    else if s[0].tabCount == k then [s[0]] + WithTabs(s[1..], k)
    else WithTabs(s[1..], k)
  }

  lemma WithTabsCons(w: Window, s: seq<Window>, k: nat)
    ensures WithTabs([w] + s, k) == (if w.tabCount == k then [w] else []) + WithTabs(s, k)
  {
  }

  ghost predicate SortedByTabs(s: seq<Window>)
  {
    forall i, j :: 0 <= i < j < |s| ==> s[i].tabCount <= s[j].tabCount
  }

  /** Puts `w` in front of the first window of `s` holding at least as many
      tabs, so that among equal tab counts `w` comes first. */
  function Insert(w: Window, s: seq<Window>): (r: seq<Window>)
    requires SortedByTabs(s)
    ensures SortedByTabs(r)
    ensures multiset(r) == multiset(s) + multiset{w}
    ensures forall k: nat :: WithTabs(r, k) == (if w.tabCount == k then [w] else []) + WithTabs(s, k)
  {
    if |s| == 0 || w.tabCount <= s[0].tabCount then
      InsertInFront(w, s);
      [w] + s
    else
      var rest := Insert(w, s[1..]);
      InsertBehind(w, s, rest);
      [s[0]] + rest
  }

  lemma InsertInFront(w: Window, s: seq<Window>)
    requires SortedByTabs(s)
    requires |s| == 0 || w.tabCount <= s[0].tabCount
    ensures SortedByTabs([w] + s)
    ensures forall k: nat :: WithTabs([w] + s, k) == (if w.tabCount == k then [w] else []) + WithTabs(s, k)
  {
  }

  /** The step of `Insert` that keeps the head of `s` in front: `rest` is `w`
      inserted into the tail of `s`. */
  lemma InsertBehind(w: Window, s: seq<Window>, rest: seq<Window>)
    requires SortedByTabs(s) && |s| > 0 && s[0].tabCount < w.tabCount
    requires SortedByTabs(rest)
    requires multiset(rest) == multiset(s[1..]) + multiset{w}
    requires forall k: nat :: WithTabs(rest, k) == (if w.tabCount == k then [w] else []) + WithTabs(s[1..], k)
    ensures SortedByTabs([s[0]] + rest)
    ensures multiset([s[0]] + rest) == multiset(s) + multiset{w}
    ensures forall k: nat :: WithTabs([s[0]] + rest, k) == (if w.tabCount == k then [w] else []) + WithTabs(s, k)
  {
    assert s == [s[0]] + s[1..];
    InsertBehindSorted(w, s, rest);
    forall k: nat ensures WithTabs([s[0]] + rest, k) == (if w.tabCount == k then [w] else []) + WithTabs(s, k) {
      InsertBehindStable(w, s, rest, k);
    }
  }

  lemma InsertBehindStable(w: Window, s: seq<Window>, rest: seq<Window>, k: nat)
    requires |s| > 0 && s[0].tabCount < w.tabCount
    requires WithTabs(rest, k) == (if w.tabCount == k then [w] else []) + WithTabs(s[1..], k)
    ensures WithTabs([s[0]] + rest, k) == (if w.tabCount == k then [w] else []) + WithTabs(s, k)
  {
  }

  lemma InsertBehindSorted(w: Window, s: seq<Window>, rest: seq<Window>)
    requires SortedByTabs(s) && |s| > 0 && s[0].tabCount < w.tabCount
    requires SortedByTabs(rest)
    requires multiset(rest) == multiset(s[1..]) + multiset{w}
    ensures SortedByTabs([s[0]] + rest)
  {
    forall x | x in rest ensures s[0].tabCount <= x.tabCount {
      assert x in multiset(rest);
      if x != w {
        assert x in s[1..];
      }
    }
    var r := [s[0]] + rest;
    forall i, j | 0 <= i < j < |r| ensures r[i].tabCount <= r[j].tabCount {
      if i > 0 {
        assert r[i] == rest[i - 1] && r[j] == rest[j - 1];
      } else {
        assert r[j] == rest[j - 1];
        assert r[j] in rest;
      }
    }
  }

  /** `Array.prototype.sort` with comparator `a.tabs.length - b.tabs.length`.
      Since the 2019 edition ECMA-262 requires that sort to be stable, which is
      what the third postcondition says: for every tab count the windows
      holding it keep their original order. */
  function SortByTabs(s: seq<Window>): (r: seq<Window>)
    ensures SortedByTabs(r)
    ensures multiset(r) == multiset(s)
    ensures forall k: nat :: WithTabs(r, k) == WithTabs(s, k)
  {
    if |s| == 0 then []
    else
      var r := Insert(s[0], SortByTabs(s[1..]));
      assert s == [s[0]] + s[1..];
      assert forall k: nat :: WithTabs(r, k) == WithTabs(s, k) by {
        forall k: nat ensures WithTabs(r, k) == WithTabs(s, k) {
          WithTabsCons(s[0], s[1..], k);
        }
      }
      r
  }

  /** `all[i]` is the window the selector should pick from the host list: a
      candidate, with no candidate holding fewer tabs, and no earlier candidate
      holding as few. */
  ghost predicate IsFirstFewest(all: seq<Window>, exclude: int, i: int)
  {
    && 0 <= i < |all|
    && IsCandidate(all[i], exclude)
    && (forall j :: 0 <= j < |all| && IsCandidate(all[j], exclude) ==> all[i].tabCount <= all[j].tabCount)
    && (forall j :: 0 <= j < i && IsCandidate(all[j], exclude) ==> all[i].tabCount < all[j].tabCount)
  }

  /** At most one index is the first-fewest one, so the choice is determined. */
  lemma FirstFewestUnique(all: seq<Window>, exclude: int, i: int, j: int)
    requires IsFirstFewest(all, exclude, i) && IsFirstFewest(all, exclude, j)
    ensures i == j
  {
  }

  /** `all[i]` is the first candidate of the host list holding `k` tabs. */
  ghost predicate IsFirstWithTabs(all: seq<Window>, exclude: int, k: nat, i: int)
  {
    && 0 <= i < |all|
    && IsCandidate(all[i], exclude) && all[i].tabCount == k
    && forall j :: 0 <= j < i && IsCandidate(all[j], exclude) ==> all[j].tabCount != k
  }

  lemma CandidatesWithTabsCons(all: seq<Window>, exclude: int, k: nat)
    requires |all| > 0
    ensures WithTabs(Candidates(all, exclude), k)
            == (if IsCandidate(all[0], exclude) && all[0].tabCount == k then [all[0]] else [])
               + WithTabs(Candidates(all[1..], exclude), k)
  {
  }

  /** Filtering candidates and then windows with `k` tabs keeps host order, so
      the first window it yields sits at the first such index of the host list. */
  lemma {:induction false} FirstWithTabs(all: seq<Window>, exclude: int, k: nat) returns (i: int)
    requires |WithTabs(Candidates(all, exclude), k)| > 0
    ensures IsFirstWithTabs(all, exclude, k, i)
    ensures all[i] == WithTabs(Candidates(all, exclude), k)[0]
  {
    CandidatesWithTabsCons(all, exclude, k);
    if IsCandidate(all[0], exclude) && all[0].tabCount == k {
      i := 0;
    } else {
      var i' := FirstWithTabs(all[1..], exclude, k);
      i := i' + 1;
      forall j | 0 <= j < i && IsCandidate(all[j], exclude) ensures all[j].tabCount != k {
        if j > 0 {
          assert all[j] == all[1..][j - 1];
        }
      }
    }
  }

  /** The head of a sorted permutation of `c` is an element of `c` holding no
      more tabs than any other. */
  lemma SortedHeadIsFewest(c: seq<Window>, r: seq<Window>)
    requires SortedByTabs(r) && multiset(r) == multiset(c) && |c| > 0
    ensures |r| > 0 && r[0] in c
    ensures forall x :: x in c ==> r[0].tabCount <= x.tabCount
  {
    assert |r| == |multiset(r)| == |multiset(c)| == |c|;
    assert r[0] in multiset(c);
    forall x | x in c ensures r[0].tabCount <= x.tabCount {
      assert x in multiset(r);
      var p :| 0 <= p < |r| && r[p] == x;
    }
  }

  /** The head of a list sorted by tab count is the first of its windows
      holding the head's tab count. */
  lemma SortedHeadWithTabs(r: seq<Window>)
    requires |r| > 0
    ensures |WithTabs(r, r[0].tabCount)| > 0 && WithTabs(r, r[0].tabCount)[0] == r[0]
  {
  }

  /** The head of the stably sorted candidate list is the first-fewest window
      of the host list. */
  lemma HeadIsFirstFewest(all: seq<Window>, exclude: int) returns (i: int)
    requires |Candidates(all, exclude)| > 0
    ensures |SortByTabs(Candidates(all, exclude))| > 0
    ensures IsFirstFewest(all, exclude, i) && all[i] == SortByTabs(Candidates(all, exclude))[0]
  {
    var c := Candidates(all, exclude);
    var r := SortByTabs(c);
    SortedHeadIsFewest(c, r);
    var m := r[0].tabCount;
    SortedHeadWithTabs(r);
    assert WithTabs(c, m) == WithTabs(r, m);
    i := FirstWithTabs(all, exclude, m);
    forall j | 0 <= j < |all| && IsCandidate(all[j], exclude) ensures m <= all[j].tabCount {
      assert all[j] in c;
    }
  }

  lemma HeadHasFirstFewestIndex(all: seq<Window>, exclude: int)
    requires |Candidates(all, exclude)| > 0
    ensures |SortByTabs(Candidates(all, exclude))| > 0
    ensures exists i :: IsFirstFewest(all, exclude, i) && all[i] == SortByTabs(Candidates(all, exclude))[0]
  {
    var i := HeadIsFirstFewest(all, exclude);
  }

  /** `get_fallback_window`: `lastFocused` is what `windows.getLastFocused`
      returned and `all` what `windows.getAll` returned, both restricted to
      normal windows. `None` is the `null` telling the caller to open a new
      window itself. */
  function FallbackWindow(lastFocused: Window, all: seq<Window>, exclude: int): (r: Option<Window>)
    ensures IsCandidate(lastFocused, exclude) ==> r == Some(lastFocused)
    ensures !IsCandidate(lastFocused, exclude) ==>
              (r.None? <==> forall j :: 0 <= j < |all| ==> !IsCandidate(all[j], exclude))
    ensures !IsCandidate(lastFocused, exclude) && r.Some? ==>
              exists i :: IsFirstFewest(all, exclude, i) && r.value == all[i]
  {
    if IsCandidate(lastFocused, exclude) then Some(lastFocused)
    else
      var sorted := SortByTabs(Candidates(all, exclude));
      if |sorted| > 0 then
        assert |multiset(sorted)| == |sorted|;
        HeadHasFirstFewestIndex(all, exclude);
        Some(sorted[0])
      else
        None
  }

  /** `get_fallback_window` as written: `windows.getAll` is called without
      `populate`, so the windows it returns carry no `tabs` list and the
      `tabCount` field is not available. Sorting two or more candidates calls
      the comparator, whose `a.tabs.length` throws a TypeError that rejects
      the whole call (the error text here is only illustrative; engines word
      it differently); with one candidate the sort calls no comparator and
      that window is returned. */
  function FallbackWindowAsWritten(lastFocused: Window, all: seq<Window>, exclude: int): (r: Result<Option<Window>>)
    ensures IsCandidate(lastFocused, exclude) ==> r == Success(Some(lastFocused))
    ensures !IsCandidate(lastFocused, exclude) ==> (r.Failure? <==> |Candidates(all, exclude)| >= 2)
    ensures !IsCandidate(lastFocused, exclude) ==>
              (r == Success(None) <==> forall j :: 0 <= j < |all| ==> !IsCandidate(all[j], exclude))
    ensures !IsCandidate(lastFocused, exclude) && r.Success? && r.value.Some? ==>
              r.value.value in all && IsCandidate(r.value.value, exclude) && |Candidates(all, exclude)| == 1
  {
    if IsCandidate(lastFocused, exclude) then Success(Some(lastFocused))
    else
      var c := Candidates(all, exclude);
      if |c| >= 2 then
        assert c[0] in c;
        Failure("TypeError: tabs is undefined")
      else if |c| == 1 then
        assert c[0] in c;
        Success(Some(c[0]))
      else
        Success(None)
  }

  /** The input that shows the defect: the last-focused window does not
      qualify and two other windows do. The code as written rejects, where
      the selector with tab counts picks one of the two. */
  lemma MissingTabsRejects(lastFocused: Window, a: Window, b: Window, exclude: int)
    requires !IsCandidate(lastFocused, exclude) && IsCandidate(a, exclude) && IsCandidate(b, exclude)
    ensures FallbackWindowAsWritten(lastFocused, [a, b], exclude).Failure?
    ensures FallbackWindow(lastFocused, [a, b], exclude).Some?
  {
    var c := Candidates([a, b], exclude);
    assert [a, b][1..] == [b];
    assert c == [a] + Candidates([b], exclude);
    assert Candidates([b], exclude) == [b] + Candidates([b][1..], exclude);
    assert IsCandidate([a, b][0], exclude);
  }

  /** With at most one candidate no comparison happens, so the code as written
      and the selector with tab counts agree. */
  lemma AsWrittenAgreesWithoutComparison(lastFocused: Window, all: seq<Window>, exclude: int)
    requires |Candidates(all, exclude)| <= 1
    ensures FallbackWindowAsWritten(lastFocused, all, exclude) == Success(FallbackWindow(lastFocused, all, exclude))
  {
    var c := Candidates(all, exclude);
    if |c| == 1 && !IsCandidate(lastFocused, exclude) {
      var sorted := SortByTabs(c);
      assert |multiset(sorted)| == |sorted|;
      assert sorted[0] in multiset(c);
      assert c == [c[0]];
    }
  }

  /** Whatever path is taken, the chosen window is valid and is not the
      excluded one. */
  lemma ChosenWindowIsValid(lastFocused: Window, all: seq<Window>, exclude: int)
    ensures var r := FallbackWindow(lastFocused, all, exclude);
            r.Some? ==> && !r.value.incognito
                        && r.value.wtype == Normal
                        && r.value.state != Minimized
                        && r.value.id != exclude
                        && (r.value == lastFocused || r.value in all)
  {
  }

  /** When the last-focused window qualifies, the host's full window list has
      no influence on the outcome. */
  lemma FastPathIgnoresList(lastFocused: Window, all1: seq<Window>, all2: seq<Window>, exclude: int)
    requires lastFocused.id != exclude && IsValidWindow(lastFocused)
    ensures FallbackWindow(lastFocused, all1, exclude) == FallbackWindow(lastFocused, all2, exclude)
  {
  }

  /** The worked example: the last-focused window (id 1) is minimized, and of
      the three valid windows with ids 2, 3, 4 and 3, 1, 5 tabs the one with a
      single tab is chosen. */
  lemma FallbackExample(lastFocused: Window, all: seq<Window>)
    requires lastFocused.id == 1 && lastFocused.state == Minimized
    requires |all| == 3 && forall j :: 0 <= j < 3 ==> IsValidWindow(all[j])
    requires all[0].id == 2 && all[1].id == 3 && all[2].id == 4
    requires all[0].tabCount == 3 && all[1].tabCount == 1 && all[2].tabCount == 5
    ensures FallbackWindow(lastFocused, all, 1) == Some(all[1])
  {
    var r := FallbackWindow(lastFocused, all, 1);
    assert IsCandidate(all[1], 1);
    var i :| IsFirstFewest(all, 1, i) && r.value == all[i];
    assert IsFirstFewest(all, 1, 1);
    FirstFewestUnique(all, 1, i, 1);
  }
}
