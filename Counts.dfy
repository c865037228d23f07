/** The aggregation both programs share: a map from component to a map from
    exception class name to the number of messages seen for that pair. The
    source keeps the counts as decimal strings (see JavaStrings.ParsePrinted);
    here they are numbers. Also the inputs the two renderers read: the
    iteration order of the (unordered) maps, given as a parameter. */
module Counts {

  type Stats = map<string, map<string, nat>>

  /** The count recorded for a pair, 0 when the pair is absent. */
  function Count(m: Stats, component: string, exception: string): nat
  {
    if component in m && exception in m[component] then m[component][exception] else 0
  }

  /** Every component has at least one exception entry and every count is at
      least 1: entries are only ever created by a first occurrence. */
  ghost predicate WellFormed(m: Stats)
  {
    forall c :: c in m ==> m[c] != map[] && forall e :: e in m[c] ==> m[c][e] >= 1
  }

  /** compExecpMap.computeIfAbsent(component, new map).merge(exception, 1, +):
      the pair's count goes up by exactly one (from 0 to 1 when new), and no
      other pair changes. */
  function Record(m: Stats, component: string, exception: string): (r: Stats)
    ensures r.Keys == m.Keys + {component}
    ensures r[component].Keys == (if component in m then m[component].Keys else {}) + {exception}
    ensures Count(r, component, exception) == Count(m, component, exception) + 1
    ensures forall c, e :: (c != component || e != exception) ==> Count(r, c, e) == Count(m, c, e)
    ensures forall c :: c in m && c != component ==> r[c] == m[c]
    ensures WellFormed(m) ==> WellFormed(r)
  {
    var inner := if component in m then m[component] else map[];
    m[component := inner[exception := if exception in inner then inner[exception] + 1 else 1]]
  }

  /** The map obtained by recording `pairs` in order into an empty map. */
  function Tally(pairs: seq<(string, string)>): (m: Stats)
    ensures WellFormed(m)
  {
    if pairs == [] then map[]
    else
      var last := pairs[|pairs| - 1];
      Record(Tally(pairs[..|pairs| - 1]), last.0, last.1)
  }

  /** Recording one more pair. */
  lemma TallyStep(pairs: seq<(string, string)>, extra: seq<(string, string)>)
    requires |extra| <= 1
    ensures Tally(pairs + extra)
            == if extra == [] then Tally(pairs) else Record(Tally(pairs), extra[0].0, extra[0].1)
  {
    if extra == [] {
      assert pairs + extra == pairs;
    } else {
      assert (pairs + extra)[..|pairs|] == pairs;
    }
  }

  /** How many times the pair occurs in `pairs`. */
  function Occurrences(pairs: seq<(string, string)>, component: string, exception: string): nat
  {
    if pairs == [] then 0
    else
      Occurrences(pairs[..|pairs| - 1], component, exception)
      + (if pairs[|pairs| - 1] == (component, exception) then 1 else 0)
  }

  /** After recording a sequence of pairs, each pair's count is the number of
      times it was recorded. */
  lemma {:induction false} TallyCounts(pairs: seq<(string, string)>, component: string, exception: string)
    ensures Count(Tally(pairs), component, exception) == Occurrences(pairs, component, exception)
  {
    if pairs != [] {
      TallyCounts(pairs[..|pairs| - 1], component, exception);
    }
  }

  /** Counting over one more recorded pair (or none). */
  lemma OccurrencesAppend(a: seq<(string, string)>, b: seq<(string, string)>, component: string, exception: string)
    requires |b| <= 1
    ensures Occurrences(a + b, component, exception)
            == Occurrences(a, component, exception) + Occurrences(b, component, exception)
  {
    if b != [] {
      assert (a + b)[..|a + b| - 1] == a;
      assert b[..0] == [];
    } else {
      assert a + b == a;
    }
  }

  /** The messages of all pages, page after page. */
  function Messages(pages: seq<seq<string>>): (msgs: seq<string>)
    ensures pages == [] ==> msgs == []
  {
    if pages == [] then [] else Messages(pages[..|pages| - 1]) + pages[|pages| - 1]
  }

  /** The messages of the first `n` pages come first. */
  lemma {:induction false} MessagesPrefix(pages: seq<seq<string>>, n: nat)
    requires n <= |pages|
    ensures Messages(pages[..n]) <= Messages(pages)
  {
    if n < |pages| {
      var front := pages[..|pages| - 1];
      MessagesPrefix(front, n);
      assert front[..n] == pages[..n];
    } else {
      assert pages[..n] == pages;
    }
  }

  /** One entry of a rendered table. */
  datatype Entry = Entry(component: string, exception: string, count: nat)

  /** No element occurs twice. */
  ghost predicate Distinct(xs: seq<string>)
  {
    forall i, j :: 0 <= i < j < |xs| ==> xs[i] != xs[j]
  }

  /** `xs` lists every key exactly once: one possible iteration order of a
      java.util.HashMap's key set, which the HashMap itself leaves open. */
  ghost predicate Enumerates(xs: seq<string>, keys: set<string>)
  {
    && (forall k :: 0 <= k < |xs| ==> xs[k] in keys)
    && (forall x :: x in keys ==> x in xs)
    && Distinct(xs)
  }

  /** The components are visited in the order `comps`, and the exceptions of
      component `c` in the order `order[c]`. */
  ghost predicate IterationOrder(m: Stats, comps: seq<string>, order: map<string, seq<string>>)
  {
    && Enumerates(comps, m.Keys)
    && forall c :: c in m ==> c in order && Enumerates(order[c], m[c].Keys)
  }

  /** What the renderers need of a (partial) visiting order. */
  ghost predicate Covers(m: Stats, comps: seq<string>, order: map<string, seq<string>>)
  {
    forall c :: c in comps ==> c in m && c in order && forall e :: e in order[c] ==> e in m[c]
  }

  lemma CoversPrefix(m: Stats, comps: seq<string>, order: map<string, seq<string>>, n: nat)
    requires Covers(m, comps, order) && n <= |comps|
    ensures Covers(m, comps[..n], order)
  {
    forall c | c in comps[..n] ensures c in comps {
      var k :| 0 <= k < n && comps[..n][k] == c;
      assert comps[k] == c;
    }
  }

  /** The entries of one component's exception map, in the order `es`. */
  function InnerEntries(component: string, inner: map<string, nat>, es: seq<string>): (r: seq<Entry>)
    requires forall e :: e in es ==> e in inner
    ensures |r| == |es|
  {
    if es == [] then []
    else
      var last := es[|es| - 1];
      InnerEntries(component, inner, es[..|es| - 1]) + [Entry(component, last, inner[last])]
  }

  lemma {:induction false} InnerEntriesAt(component: string, inner: map<string, nat>, es: seq<string>, j: nat)
    requires forall e :: e in es ==> e in inner
    requires j < |es|
    ensures InnerEntries(component, inner, es)[j] == Entry(component, es[j], inner[es[j]])
  {
    if j < |es| - 1 {
      var front := es[..|es| - 1];
      assert forall e :: e in front ==> e in es;
      InnerEntriesAt(component, inner, front, j);
    }
  }

  /** The table entries in visiting order: the order both renderers print. */
  function Entries(m: Stats, comps: seq<string>, order: map<string, seq<string>>): seq<Entry>
    requires Covers(m, comps, order)
  {
    if comps == [] then []
    else
      var c := comps[|comps| - 1];
      CoversPrefix(m, comps, order, |comps| - 1);
      Entries(m, comps[..|comps| - 1], order) + InnerEntries(c, m[c], order[c])
  }

  /** `es` lists each (component, exception) entry of `m` exactly once, with
      its count. */
  ghost predicate ExactEntries(m: Stats, es: seq<Entry>)
  {
    && (forall k :: 0 <= k < |es| ==>
          es[k].component in m && es[k].exception in m[es[k].component]
          && es[k].count == m[es[k].component][es[k].exception])
    && (forall c, e :: c in m && e in m[c] ==>
          exists k :: 0 <= k < |es| && es[k].component == c && es[k].exception == e)
    && (forall i, j :: 0 <= i < j < |es| ==>
          es[i].component != es[j].component || es[i].exception != es[j].exception)
  }

  /** Every entry comes from a visited component and is an entry of `m`. */
  lemma {:induction false} EntriesSound(m: Stats, comps: seq<string>, order: map<string, seq<string>>, k: nat)
    requires Covers(m, comps, order)
    requires k < |Entries(m, comps, order)|
    ensures var x := Entries(m, comps, order)[k];
      x.component in comps && x.component in m && x.exception in order[x.component]
      && x.exception in m[x.component] && x.count == m[x.component][x.exception]
  {
    var n := |comps| - 1;
    var front := comps[..n];
    CoversPrefix(m, comps, order, n);
    var p := Entries(m, front, order);
    var c := comps[n];
    if k < |p| {
      EntriesSound(m, front, order, k);
      assert p[k].component in comps;
    } else {
      InnerEntriesAt(c, m[c], order[c], k - |p|);
    }
  }

  /** Every entry of a visited component is listed. */
  lemma {:induction false} EntriesComplete(m: Stats, comps: seq<string>, order: map<string, seq<string>>, c: string, e: string)
    requires Covers(m, comps, order)
    requires c in comps && e in order[c]
    ensures exists k :: (0 <= k < |Entries(m, comps, order)|
              && Entries(m, comps, order)[k].component == c && Entries(m, comps, order)[k].exception == e)
  {
    var n := |comps| - 1;
    var front := comps[..n];
    CoversPrefix(m, comps, order, n);
    var p := Entries(m, front, order);
    var all := Entries(m, comps, order);
    if c == comps[n] {
      var j :| 0 <= j < |order[c]| && order[c][j] == e;
      InnerEntriesAt(c, m[c], order[c], j);
      assert all[|p| + j].component == c && all[|p| + j].exception == e;
    } else {
      var i :| 0 <= i < |comps| && comps[i] == c;
      assert c in front;
      EntriesComplete(m, front, order, c, e);
      var k :| 0 <= k < |p| && p[k].component == c && p[k].exception == e;
      assert all[k] == p[k];
    }
  }

  /** No (component, exception) pair is listed twice. */
  lemma {:induction false} EntriesDistinct(m: Stats, comps: seq<string>, order: map<string, seq<string>>, i: nat, j: nat)
    requires Covers(m, comps, order)
    requires Distinct(comps) && forall c :: c in comps ==> Distinct(order[c])
    requires i < j < |Entries(m, comps, order)|
    ensures var es := Entries(m, comps, order);
      es[i].component != es[j].component || es[i].exception != es[j].exception
  {
    var n := |comps| - 1;
    var front := comps[..n];
    CoversPrefix(m, comps, order, n);
    var p := Entries(m, front, order);
    var c := comps[n];
    var es := Entries(m, comps, order);
    if j < |p| {
      forall x | x in front ensures x in comps && Distinct(order[x]) {
        var t :| 0 <= t < n && front[t] == x;
        assert comps[t] == x;
      }
      EntriesDistinct(m, front, order, i, j);
    } else if i < |p| {
      EntriesSound(m, front, order, i);
      var t :| 0 <= t < n && front[t] == p[i].component;
      assert comps[t] != comps[n];
      InnerEntriesAt(c, m[c], order[c], j - |p|);
    } else {
      InnerEntriesAt(c, m[c], order[c], i - |p|);
      InnerEntriesAt(c, m[c], order[c], j - |p|);
    }
  }

  /** Visiting the maps in any iteration order lists each entry exactly once. */
  lemma EntriesExact(m: Stats, comps: seq<string>, order: map<string, seq<string>>)
    requires IterationOrder(m, comps, order)
    ensures Covers(m, comps, order)
    ensures ExactEntries(m, Entries(m, comps, order))
  {
    var es := Entries(m, comps, order);
    forall k | 0 <= k < |es|
      ensures es[k].component in m && es[k].exception in m[es[k].component]
              && es[k].count == m[es[k].component][es[k].exception]
    {
      EntriesSound(m, comps, order, k);
    }
    forall c, e | c in m && e in m[c]
      ensures exists k :: 0 <= k < |es| && es[k].component == c && es[k].exception == e
    {
      EntriesComplete(m, comps, order, c, e);
    }
    forall i, j | 0 <= i < j < |es|
      ensures es[i].component != es[j].component || es[i].exception != es[j].exception
    {
      EntriesDistinct(m, comps, order, i, j);
    }
  }

  /** A duplicate-free listing of a set is as long as the set is large. */
  lemma {:induction false} EnumerationSize(xs: seq<string>, keys: set<string>)
    requires Enumerates(xs, keys)
    ensures |xs| == |keys|
  {
    if xs != [] {
      var n := |xs| - 1;
      var last := xs[n];
      var front := xs[..n];
      forall x | x in keys - {last} ensures x in front {
        var k :| 0 <= k < |xs| && xs[k] == x;
        assert k != n;
        assert front[k] == x;
      }
      forall k | 0 <= k < n ensures front[k] in keys - {last} {
        assert front[k] == xs[k] != xs[n];
      }
      EnumerationSize(front, keys - {last});
    }
  }

  /** The messages of one more page. */
  lemma MessagesStep(pages: seq<seq<string>>, p: nat)
    requires p < |pages|
    ensures Messages(pages[..p + 1]) == Messages(pages[..p]) + pages[p]
  {
    assert pages[..p + 1][..p] == pages[..p];
  }

  /** A prefix grown by the next element is still a prefix. */
  lemma PrefixGrows(all: seq<string>, front: seq<string>, events: seq<string>, i: nat)
    requires front + events <= all && i < |events|
    ensures front + events[..i] + [events[i]] <= all
    ensures front + events[..i + 1] == front + events[..i] + [events[i]]
  {
    assert events[..i + 1] == events[..i] + [events[i]];
    assert front + events[..i] + [events[i]] == (front + events)[..|front| + i + 1];
  }
}
