/** The Salesforce console's tab controls: the tab-trim loop, which closes
    the oldest tab once too many are open, and the Kill Tabs button, which
    closes every tab.

    A tab is reduced to whether its close element holds the small close
    button. A click is written as the index, in the tab list read when the
    handler starts, of the tab whose close button is clicked; the list is a
    snapshot (`Array.from` of the query), so later clicks do not shift the
    indices. */
module Tabs {

  /** One console tab: whether its close element holds a close button. */
  datatype Tab = Tab(closable: bool)

  /** How many tabs the main.js and extension/main.js trim loop keeps. */
  const KeepTabs := 10

  // ---------------------------------------------------------------------
  // Reference definitions

  /** The indices in `lo..hi` of the tabs that have a close button, in
      ascending order. */
  function Closable(tabs: seq<Tab>, lo: nat, hi: nat): seq<nat>
    requires hi <= |tabs|
    decreases hi
  {
    if hi <= lo then []
    else Closable(tabs, lo, hi - 1) + (if tabs[hi - 1].closable then [hi - 1] else [])
  }

  function Reverse<T>(s: seq<T>): seq<T> {
    if |s| == 0 then [] else Reverse(s[1..]) + [s[0]]
  }

  predicate Ascending(s: seq<nat>) {
    forall i, j :: 0 <= i < j < |s| ==> s[i] < s[j]
  }

  predicate Descending(s: seq<nat>) {
    forall i, j :: 0 <= i < j < |s| ==> s[i] > s[j]
  }

  /** `Closable` holds exactly the closable tabs of its range, each once
      and in ascending order. */
  lemma {:induction false} ClosableExactly(tabs: seq<Tab>, lo: nat, hi: nat)
    requires hi <= |tabs|
    ensures forall x :: x in Closable(tabs, lo, hi) <==> lo <= x < hi && tabs[x].closable
    ensures Ascending(Closable(tabs, lo, hi))
    decreases hi
  {
    if lo < hi {
      ClosableExactly(tabs, lo, hi - 1);
      var c := Closable(tabs, lo, hi - 1);
      var q := if tabs[hi - 1].closable then [hi - 1] else [];
      var r := c + q;
      assert r == Closable(tabs, lo, hi);
      forall x
        ensures x in r <==> lo <= x < hi && tabs[x].closable
      {
        assert x in r <==> x in c || x in q;
      }
      forall i, j | 0 <= i < j < |r|
        ensures r[i] < r[j]
      {
        assert r[i] == c[i] && c[i] in c;
        if j < |c| {
          assert r[j] == c[j];
        }
      }
    }
  }

  /** Peeling the lowest index off the range. */
  lemma {:induction false} ClosableLow(tabs: seq<Tab>, lo: nat, hi: nat)
    requires lo < hi <= |tabs|
    ensures Closable(tabs, lo, hi) ==
              (if tabs[lo].closable then [lo] else []) + Closable(tabs, lo + 1, hi)
    decreases hi
  {
    if lo + 1 < hi {
      ClosableLow(tabs, lo, hi - 1);
      var p := if tabs[lo].closable then [lo] else [];
      var q := if tabs[hi - 1].closable then [hi - 1] else [];
      assert p + Closable(tabs, lo + 1, hi - 1) + q == p + (Closable(tabs, lo + 1, hi - 1) + q);
    } else {
      assert Closable(tabs, lo + 1, hi) == [];
      assert Closable(tabs, lo, hi - 1) == [];
    }
  }

  /** A reversed sequence has the same elements, back to front. */
  lemma {:induction false} ReverseIndex<T>(s: seq<T>)
    ensures |Reverse(s)| == |s|
    ensures forall k :: 0 <= k < |s| ==> Reverse(s)[k] == s[|s| - 1 - k]
  {
    if |s| > 0 {
      ReverseIndex(s[1..]);
    }
  }

  /** Reversing an ascending sequence gives a descending one. */
  lemma ReverseAscending(s: seq<nat>)
    requires Ascending(s)
    ensures Descending(Reverse(s))
  {
    ReverseIndex(s);
  }

  // ---------------------------------------------------------------------
  // Kill Tabs

  /** content.js's Kill Tabs: every tab in list order, clicking the close
      button of those that have one (the awaited pause between clicks is
      left out). */
  method KillTabsInOrder(tabs: seq<Tab>) returns (clicks: seq<nat>)
    ensures clicks == Closable(tabs, 0, |tabs|)
  {
    clicks := [];
    var i := 0;
    while i < |tabs|
      invariant i <= |tabs|
      invariant clicks == Closable(tabs, 0, i)
    {
      if tabs[i].closable {
        clicks := clicks + [i];
      }
      i := i + 1;
    }
  }

  /** main.js's Kill Tabs: the same tabs from the last index down to the
      first ("rightmost inward"). */
  method KillTabsRightmostFirst(tabs: seq<Tab>) returns (clicks: seq<nat>)
    ensures clicks == Reverse(Closable(tabs, 0, |tabs|))
  {
    clicks := [];
    var j: nat := |tabs|;
    while j > 0
      invariant j <= |tabs|
      invariant clicks == Reverse(Closable(tabs, j, |tabs|))
    {
      j := j - 1;
      ClosableLow(tabs, j, |tabs|);
      if tabs[j].closable {
        assert ([j] + Closable(tabs, j + 1, |tabs|))[1..] == Closable(tabs, j + 1, |tabs|);
        clicks := clicks + [j];
      } else {
        assert Closable(tabs, j, |tabs|) == Closable(tabs, j + 1, |tabs|);
      }
    }
  }

  /** Both Kill Tabs buttons click the close button of exactly the tabs
      that have one, each once; content.js goes left to right, main.js
      right to left. */
  lemma KillTabsOrders(tabs: seq<Tab>)
    ensures var asc := Closable(tabs, 0, |tabs|);
            && Ascending(asc) && Descending(Reverse(asc))
            && |Reverse(asc)| == |asc|
            && (forall x :: x in asc <==> 0 <= x < |tabs| && tabs[x].closable)
            && (forall k :: 0 <= k < |asc| ==> Reverse(asc)[k] == asc[|asc| - 1 - k])
  {
    ClosableExactly(tabs, 0, |tabs|);
    ReverseAscending(Closable(tabs, 0, |tabs|));
    ReverseIndex(Closable(tabs, 0, |tabs|));
  }

  // ---------------------------------------------------------------------
  // Tab-trim loop

  /** One tick of content.js's tab loop: `i` runs from `tabLimit` up to the
      number of tabs, and every iteration clicks the close button of the
      FIRST tab, if it has one. */
  method TrimTickInOrder(tabs: seq<Tab>, tabLimit: int) returns (clicks: seq<nat>)
    ensures var over := if |tabs| > tabLimit then |tabs| - tabLimit else 0;
            |clicks| == (if |tabs| > 0 && tabs[0].closable then over else 0)
    ensures forall k :: 0 <= k < |clicks| ==> clicks[k] == 0
  {
    clicks := [];
    var i := tabLimit;
    while i < |tabs|
      invariant tabLimit <= i <= (if |tabs| > tabLimit then |tabs| else tabLimit)
      invariant |clicks| == (if |tabs| > 0 && tabs[0].closable then i - tabLimit else 0)
      invariant forall k :: 0 <= k < |clicks| ==> clicks[k] == 0
      decreases |tabs| - i
    {
      if |tabs| > 0 && tabs[0].closable {
        clicks := clicks + [0];
      }
      i := i + 1;
    }
  }

  /** One tick of the main.js and extension/main.js tab loop: with more
      than ten tabs, click the first tab's close button. */
  function TrimTick(tabs: seq<Tab>): (clicks: seq<nat>)
    ensures |clicks| <= 1 && (forall k :: 0 <= k < |clicks| ==> clicks[k] == 0)
    ensures |clicks| == 1 <==> |tabs| > KeepTabs && tabs[0].closable
  {
    if |tabs| > KeepTabs && tabs[0].closable then [0] else []
  }

  /** The tab bar after one tick, when a clicked close button closes its
      tab. */
  function AfterTrim(tabs: seq<Tab>): seq<Tab> {
    if |TrimTick(tabs)| == 1 then tabs[1..] else tabs
  }

  /** The tab bar after `n` ticks with no tab opened in between. */
  function TrimTicks(tabs: seq<Tab>, n: nat): seq<Tab>
    decreases n
  {
    if n == 0 then tabs else TrimTicks(AfterTrim(tabs), n - 1)
  }

  /** With every tab closable, the loop closes the oldest tabs one per tick
      until ten remain, and then closes nothing. */
  lemma {:induction false} TrimConverges(tabs: seq<Tab>, n: nat)
    requires forall i :: 0 <= i < |tabs| ==> tabs[i].closable
    ensures var over := if |tabs| > KeepTabs then |tabs| - KeepTabs else 0;
            TrimTicks(tabs, n) == tabs[if n < over then n else over..]
    decreases n
  {
    if n > 0 {
      var t := AfterTrim(tabs);
      TrimConverges(t, n - 1);
      if |tabs| > KeepTabs {
        assert t == tabs[1..];
        var over := |tabs| - KeepTabs;
        var d := if n - 1 < over - 1 then n - 1 else over - 1;
        assert tabs[1..][d..] == tabs[d + 1..];
      }
    }
  }

  /** However the tabs look, the loop never takes the bar below ten tabs
      (or below its starting size, if it had fewer). */
  lemma {:induction false} TrimKeepsTen(tabs: seq<Tab>, n: nat)
    ensures |TrimTicks(tabs, n)| >= (if |tabs| < KeepTabs then |tabs| else KeepTabs)
    ensures |TrimTicks(tabs, n)| <= |tabs|
    decreases n
  {
    if n > 0 {
      TrimKeepsTen(AfterTrim(tabs), n - 1);
    }
  }

  /** A first tab without a close button stops the loop for good: it
      clicks nothing, however many tabs are open. */
  lemma {:induction false} TrimStuck(tabs: seq<Tab>, n: nat)
    requires |tabs| > 0 && !tabs[0].closable
    ensures TrimTicks(tabs, n) == tabs
    decreases n
  {
    if n > 0 {
      TrimStuck(tabs, n - 1);
    }
  }
}
