/**
  sort_dependencies of the generator: structures are declared after the
  structures they contain. It always terminates with a permutation of its
  input, and falls back on an arbitrary order exactly if there is a cycle.
 */
module SortDependencies {

  /** A message and the type names its fields refer to, of messages and of anything else. */
  datatype Message = Message(name: string, deps: set<string>)

  function Names(ms: seq<Message>): set<string> {
    set m | m in ms :: m.name
  }

  ghost predicate Distinct(ms: seq<Message>) {
    forall i, j :: 0 <= i < j < |ms| ==> ms[i].name != ms[j].name
  }

  // ----- orders and cycles -----

  /** Every message comes after all the messages of the list it depends on. */
  ghost predicate InOrder(sorted: seq<Message>, names: set<string>) {
    forall i :: 0 <= i < |sorted| ==> ComesAfter(sorted, names, i)
  }

  ghost predicate ComesAfter(sorted: seq<Message>, names: set<string>, i: nat)
    requires i < |sorted|
  {
    sorted[i].deps * names <= Names(sorted[..i])
  }

  /** Each message of the walk depends on the next one. */
  ghost predicate Walk(ms: seq<Message>, c: seq<Message>) {
    && (forall i :: 0 <= i < |c| ==> c[i] in ms)
    && forall i :: 0 <= i < |c| - 1 ==> c[i + 1].name in c[i].deps
  }

  ghost predicate Cycle(ms: seq<Message>, c: seq<Message>) {
    |c| >= 2 && c[0] == c[|c| - 1] && Walk(ms, c)
  }

  ghost predicate Cyclic(ms: seq<Message>) {
    exists c: seq<Message> :: Cycle(ms, c)
  }

  lemma SameName(ms: seq<Message>, a: Message, b: Message)
    requires Distinct(ms) && a in ms && b in ms && a.name == b.name
    ensures a == b
  {
    var i, j :| 0 <= i < |ms| && 0 <= j < |ms| && ms[i] == a && ms[j] == b;
  }

  /** In an ordered list a walk only leads towards the front. */
  lemma {:induction false} WalkDescends(
    ms: seq<Message>, sorted: seq<Message>, c: seq<Message>, p: nat)
    returns (q: nat)
    requires Distinct(ms) && (forall m :: m in sorted <==> m in ms) && InOrder(sorted, Names(ms))
    requires Walk(ms, c) && |c| > 0 && p < |sorted| && sorted[p] == c[0]
    ensures q + |c| <= p + 1 && sorted[q] == c[|c| - 1]
    decreases |c|
  {
    if |c| == 1 {
      q := p;
    } else {
      assert ComesAfter(sorted, Names(ms), p) && c[1] in ms && c[1].name in Names(sorted[..p]);
      var r :| 0 <= r < p && sorted[r].name == c[1].name;
      SameName(ms, sorted[r], c[1]);
      assert c[1..][|c| - 2] == c[|c| - 1];
      q := WalkDescends(ms, sorted, c[1..], r);
    }
  }

  /** An ordered list has no cycle. */
  lemma OrderedIsAcyclic(ms: seq<Message>, sorted: seq<Message>)
    requires Distinct(ms) && Distinct(sorted) && (forall m :: m in sorted <==> m in ms) && InOrder(sorted, Names(ms))
    ensures !Cyclic(ms)
  {
    forall c: seq<Message> | Cycle(ms, c) ensures false {
      assert c[0] in sorted;
      var p :| 0 <= p < |sorted| && sorted[p] == c[0];
      var q := WalkDescends(ms, sorted, c, p);
    }
  }

  // ----- a list without a free message has a cycle -----

  /** No message of the list can be emitted before all others. */
  ghost predicate Stuck(ms: seq<Message>) {
    forall i :: 0 <= i < |ms| ==> ms[i].deps * Names(ms) != {}
  }

  /** From every message of a stuck list there are walks of any length. */
  lemma {:induction false} LongWalk(ms: seq<Message>, n: nat) returns (c: seq<Message>)
    requires ms != [] && Stuck(ms)
    ensures |c| == n + 1 && Walk(ms, c)
  {
    if n == 0 {
      c := [ms[0]];
    } else {
      var b := LongWalk(ms, n - 1);
      var next := Successor(ms, b[|b| - 1]);
      c := b + [next];
    }
  }

  lemma Successor(ms: seq<Message>, m: Message) returns (next: Message)
    requires Stuck(ms) && m in ms
    ensures next in ms && next.name in m.deps
  {
    var i :| 0 <= i < |ms| && ms[i] == m;
    var name :| name in ms[i].deps * Names(ms);
    next :| next in ms && next.name == name;
  }

  /** A sequence longer than the set its elements come from repeats one of them. */
  lemma {:induction false} Pigeonhole(c: seq<Message>, s: set<Message>) returns (i: nat, j: nat)
    requires |c| > |s| && forall k :: 0 <= k < |c| ==> c[k] in s
    ensures i < j < |c| && c[i] == c[j]
    decreases |c|
  {
    var last := |c| - 1;
    if k :| 0 <= k < last && c[k] == c[last] {
      i, j := k, last;
    } else {
      i, j := Pigeonhole(c[..last], s - {c[last]});
    }
  }

  lemma {:induction false} SetOf(ms: seq<Message>) returns (s: set<Message>)
    ensures |s| <= |ms| && forall m :: m in ms ==> m in s
  {
    if ms == [] {
      s := {};
    } else {
      var t := SetOf(ms[1..]);
      s := t + {ms[0]};
      assert forall m :: m in ms ==> m == ms[0] || m in ms[1..];
    }
  }

  lemma StuckIsCyclic(ms: seq<Message>)
    requires ms != [] && Stuck(ms)
    ensures Cyclic(ms)
  {
    var c := LongWalk(ms, |ms|);
    var s := SetOf(ms);
    var i, j := Pigeonhole(c, s);
    var d := c[i..j + 1];
    assert forall k :: 0 <= k < |d| ==> d[k] == c[i + k];
    assert Cycle(ms, d);
  }

  lemma CyclicPart(part: seq<Message>, ms: seq<Message>)
    requires Cyclic(part) && forall m :: m in part ==> m in ms
    ensures Cyclic(ms)
  {
    var c :| Cycle(part, c);
    assert Cycle(ms, c);
  }

  // ----- which message is next -----

  /** The messages that are not yet emitted, in their original order. */
  function Rest(messages: seq<Message>, sorted: seq<Message>): seq<Message> {
    if messages == [] then []
    else if messages[0] in sorted then Rest(messages[1..], sorted)
    else [messages[0]] + Rest(messages[1..], sorted)
  }

  /** Message k depends on none of the list, itself included. */
  ghost predicate IsFree(ms: seq<Message>, k: nat)
    requires k < |ms|
  {
    ms[k].deps * Names(ms) == {}
  }

  /** The first free message of the list, or the first one of all if none is free. */
  ghost predicate IsNext(ms: seq<Message>, k: nat) {
    && k < |ms|
    && (IsFree(ms, k) || (k == 0 && Stuck(ms)))
    && forall j :: 0 <= j < k ==> !IsFree(ms, j)
  }

  ghost predicate NextIs(ms: seq<Message>, m: Message) {
    exists k: nat :: IsNext(ms, k) && ms[k] == m
  }

  /** Each message is the next one of those that remain. */
  ghost predicate Earliest(messages: seq<Message>, sorted: seq<Message>) {
    forall i :: 0 <= i < |sorted| ==> NextIs(Rest(messages, sorted[..i]), sorted[i])
  }

  lemma NothingBefore(ms: seq<Message>, i: nat, k: nat)
    requires i < k && IsNext(ms, k)
    ensures !IsNext(ms, i)
  {
  }

  lemma NextIsUnique(ms: seq<Message>, a: Message, b: Message)
    requires NextIs(ms, a) && NextIs(ms, b)
    ensures a == b
  {
    var i: nat :| IsNext(ms, i) && ms[i] == a;
    var k: nat :| IsNext(ms, k) && ms[k] == b;
    if i < k { NothingBefore(ms, i, k); } else if k < i { NothingBefore(ms, k, i); }
  }

  lemma LastIsNext(messages: seq<Message>, a: seq<Message>)
    requires a != [] && Earliest(messages, a)
    ensures Earliest(messages, a[..|a| - 1]) && NextIs(Rest(messages, a[..|a| - 1]), a[|a| - 1])
  {
    var b := a[..|a| - 1];
    forall i | 0 <= i < |b| ensures NextIs(Rest(messages, b[..i]), b[i]) {
      assert b[..i] == a[..i];
    }
  }

  /** There is one such order only. */
  lemma {:induction false} EarliestIsUnique(messages: seq<Message>, a: seq<Message>, b: seq<Message>)
    requires |a| == |b| && Earliest(messages, a) && Earliest(messages, b)
    ensures a == b
    decreases |a|
  {
    if a == [] {
    } else {
      var n := |a| - 1;
      LastIsNext(messages, a);
      LastIsNext(messages, b);
      EarliestIsUnique(messages, a[..n], b[..n]);
      NextIsUnique(Rest(messages, a[..n]), a[n], b[n]);
      assert a == a[..n] + [a[n]] && b == b[..n] + [b[n]];
    }
  }

  lemma {:induction false} RestOfOthers(messages: seq<Message>, sorted: seq<Message>, m: Message)
    requires m !in messages
    ensures Rest(messages, sorted + [m]) == Rest(messages, sorted)
  {
    if messages == [] {
    } else {
      RestOfOthers(messages[1..], sorted, m);
    }
  }

  lemma {:induction false} RestIsPart(messages: seq<Message>, sorted: seq<Message>)
    ensures forall m :: m in Rest(messages, sorted) ==> m in messages && m !in sorted
  {
    if messages == [] {
    } else {
      RestIsPart(messages[1..], sorted);
    }
  }

  /** Emitting a message takes it out of the list. */
  lemma {:induction false} RestWithout(messages: seq<Message>, sorted: seq<Message>, k: nat)
    requires Distinct(messages) && k < |Rest(messages, sorted)|
    ensures var r := Rest(messages, sorted); Rest(messages, sorted + [r[k]]) == r[..k] + r[k + 1..]
  {
    var r, tail := Rest(messages, sorted), Rest(messages[1..], sorted);
    if messages[0] in sorted {
      RestWithout(messages[1..], sorted, k);
    } else if k == 0 {
      RestOfOthers(messages[1..], sorted, messages[0]);
      assert r[..0] + r[1..] == tail;
    } else {
      RestWithout(messages[1..], sorted, k - 1);
      RestIsPart(messages[1..], sorted);
      assert tail[k - 1] in messages[1..] && r[k] == tail[k - 1];
      assert r[..k] + r[k + 1..] == [messages[0]] + (tail[..k - 1] + tail[k..]);
    }
  }

  lemma {:induction false} RestOfNone(messages: seq<Message>)
    ensures Rest(messages, []) == messages
  {
    if messages == [] {
    } else {
      RestOfNone(messages[1..]);
    }
  }

  lemma EmitNext(messages: seq<Message>, sorted: seq<Message>, k: nat)
    requires Distinct(messages) && Earliest(messages, sorted) && IsNext(Rest(messages, sorted), k)
    ensures Earliest(messages, sorted + [Rest(messages, sorted)[k]])
    ensures var r := Rest(messages, sorted); Rest(messages, sorted + [r[k]]) == r[..k] + r[k + 1..]
  {
    var r := Rest(messages, sorted);
    var more := sorted + [r[k]];
    forall i | 0 <= i < |more| ensures NextIs(Rest(messages, more[..i]), more[i]) {
      assert more[..i] == sorted[..i];
      if i == |sorted| { assert sorted[..i] == sorted; }
    }
    RestWithout(messages, sorted, k);
  }

  lemma {:induction false} RestOfPrefix(messages: seq<Message>, i: nat)
    requires Distinct(messages) && i <= |messages|
    ensures Rest(messages, messages[..i]) == messages[i..]
  {
    if i == 0 {
      RestOfNone(messages);
    } else {
      RestOfPrefix(messages, i - 1);
      RestWithout(messages, messages[..i - 1], 0);
      assert messages[..i - 1] + [messages[i - 1]] == messages[..i];
    }
  }

  /** Messages that are in order already are left as they are. */
  lemma OrderedIsKept(messages: seq<Message>, sorted: seq<Message>)
    requires Distinct(messages) && InOrder(messages, Names(messages))
    requires |sorted| == |messages| && Earliest(messages, sorted)
    ensures sorted == messages
  {
    forall i | 0 <= i < |messages| ensures NextIs(Rest(messages, messages[..i]), messages[i]) {
      RestOfPrefix(messages, i);
      HeadIsFree(messages, i);
      assert IsNext(messages[i..], 0);
    }
    EarliestIsUnique(messages, sorted, messages);
  }

  lemma HeadIsFree(messages: seq<Message>, i: nat)
    requires Distinct(messages) && InOrder(messages, Names(messages)) && i < |messages|
    ensures IsFree(messages[i..], 0)
  {
    assert ComesAfter(messages, Names(messages), i);
    forall m | m in messages[i..] ensures m in messages && m.name !in Names(messages[..i]) {
      var a :| 0 <= a < |messages[i..]| && messages[i..][a] == m;
      assert m == messages[i + a];
    }
  }

  // ----- the algorithm -----

  /** The inner loop: the first candidate none of whose dependencies remains, or the length. */
  method FirstFree(remaining: seq<Message>, remainset: set<string>) returns (k: nat)
    ensures k <= |remaining|
    ensures k < |remaining| ==> remainset * remaining[k].deps == {}
    ensures forall i :: 0 <= i < k ==> remaining[i].deps * remainset != {}
  {
    k := 0;
    while k < |remaining|
      invariant k <= |remaining|
      invariant forall i :: 0 <= i < k ==> remaining[i].deps * remainset != {}
    {
      if remainset * remaining[k].deps == {} { return; }
      assert remaining[k].deps * remainset == remainset * remaining[k].deps;
      k := k + 1;
    }
  }

  /** Emitted and remaining messages make up the input. */
  ghost predicate Divided(messages: seq<Message>, sorted: seq<Message>, remaining: seq<Message>) {
    multiset(messages) == multiset(sorted) + multiset(remaining) && Distinct(sorted + remaining)
  }

  lemma MoveOne(messages: seq<Message>, sorted: seq<Message>, remaining: seq<Message>, k: nat)
    requires Divided(messages, sorted, remaining) && k < |remaining|
    ensures Divided(messages, sorted + [remaining[k]], remaining[..k] + remaining[k + 1..])
    ensures Names(remaining[..k] + remaining[k + 1..]) == Names(remaining) - {remaining[k].name}
  {
    var rest := remaining[..k] + remaining[k + 1..];
    assert remaining == remaining[..k] + [remaining[k]] + remaining[k + 1..];
    DistinctMoved(sorted, remaining, k);
    NamesWithout(sorted, remaining, k);
  }

  lemma DistinctMoved(sorted: seq<Message>, remaining: seq<Message>, k: nat)
    requires Distinct(sorted + remaining) && k < |remaining|
    ensures Distinct(sorted + [remaining[k]] + (remaining[..k] + remaining[k + 1..]))
  {
    var whole, n := sorted + remaining, |sorted|;
    var moved := sorted + [remaining[k]] + (remaining[..k] + remaining[k + 1..]);
    forall i, j | 0 <= i < j < |moved| ensures moved[i].name != moved[j].name {
      var a := if i < n then i else if i == n then n + k else if i <= n + k then i - 1 else i;
      var b := if j < n then j else if j == n then n + k else if j <= n + k then j - 1 else j;
      assert moved[i] == whole[a] && moved[j] == whole[b] && a != b;
    }
  }

  lemma NamesWithout(sorted: seq<Message>, remaining: seq<Message>, k: nat)
    requires Distinct(sorted + remaining) && k < |remaining|
    ensures Names(remaining[..k] + remaining[k + 1..]) == Names(remaining) - {remaining[k].name}
  {
    var rest, whole, n := remaining[..k] + remaining[k + 1..], sorted + remaining, |sorted|;
    forall m | m in rest ensures m in remaining && m.name != remaining[k].name {
      var i :| 0 <= i < |rest| && rest[i] == m;
      assert m == whole[if i < k then n + i else n + i + 1] && remaining[k] == whole[n + k];
    }
    forall m | m in remaining && m.name != remaining[k].name ensures m in rest {
      var i :| 0 <= i < |remaining| && remaining[i] == m;
      assert m == rest[if i < k then i else i - 1];
    }
  }

  lemma EmitInOrder(messages: seq<Message>, sorted: seq<Message>, remaining: seq<Message>, k: nat)
    requires Divided(messages, sorted, remaining) && k < |remaining|
    requires InOrder(sorted, Names(messages)) && Names(remaining) * remaining[k].deps == {}
    ensures InOrder(sorted + [remaining[k]], Names(messages))
  {
    var more := sorted + [remaining[k]];
    forall i | 0 <= i < |more| ensures ComesAfter(more, Names(messages), i) {
      if i < |sorted| {
        assert more[..i] == sorted[..i] && ComesAfter(sorted, Names(messages), i);
      } else {
        assert more[..i] == sorted && more[i] == remaining[k];
        NamesDivide(messages, sorted, remaining);
        forall x | x in remaining[k].deps * Names(messages) ensures x in Names(sorted) {
          assert x !in Names(remaining) * remaining[k].deps;
        }
      }
    }
  }

  lemma NamesDivide(messages: seq<Message>, sorted: seq<Message>, remaining: seq<Message>)
    requires Divided(messages, sorted, remaining)
    ensures Names(messages) <= Names(sorted) + Names(remaining)
  {
    forall m | m in messages ensures m in sorted || m in remaining {
      assert m in multiset(messages);
    }
  }

  /** What holds between the rounds. */
  ghost predicate Sorting(
    messages: seq<Message>, sorted: seq<Message>, remaining: seq<Message>, remainset: set<string>, circular: bool)
  {
    && Distinct(messages) && Divided(messages, sorted, remaining) && remainset == Names(remaining)
    && remaining == Rest(messages, sorted) && Earliest(messages, sorted)
    && if circular then Cyclic(messages) else InOrder(sorted, Names(messages))
  }

  /** The next message: the first one that is free, or, in a circle, simply the first. */
  method Choose(
    ghost messages: seq<Message>, ghost sorted: seq<Message>,
    remaining: seq<Message>, remainset: set<string>, circular: bool)
    returns (k: nat, circular': bool)
    requires Sorting(messages, sorted, remaining, remainset, circular) && remaining != []
    ensures IsNext(remaining, k)
    ensures if circular' then Cyclic(messages) else InOrder(sorted + [remaining[k]], Names(messages))
  {
    circular' := circular;
    k := FirstFree(remaining, remainset);
    if k < |remaining| {
      if !circular { EmitInOrder(messages, sorted, remaining, k); }
    } else {
      StuckIsCyclic(remaining);
      RemainingIsPart(messages, sorted, remaining);
      CyclicPart(remaining, messages);
      circular', k := true, 0;
    }
  }

  /** One round: a message moves from the remaining ones to the sorted ones. */
  method Round(
    ghost messages: seq<Message>, sorted: seq<Message>, remaining: seq<Message>, remainset: set<string>, circular: bool)
    returns (sorted': seq<Message>, remaining': seq<Message>, remainset': set<string>, circular': bool)
    requires Sorting(messages, sorted, remaining, remainset, circular) && remaining != []
    ensures Sorting(messages, sorted', remaining', remainset', circular') && |remaining'| == |remaining| - 1
  {
    var k;
    k, circular' := Choose(messages, sorted, remaining, remainset, circular);
    MoveOne(messages, sorted, remaining, k);
    EmitNext(messages, sorted, k);
    remainset' := remainset - {remaining[k].name};
    sorted', remaining' := sorted + [remaining[k]], remaining[..k] + remaining[k + 1..];
  }

  /**
    sort_dependencies: a permutation of the messages, each the first of the
    remaining ones that depends on none of them. The circular fallback is taken
    exactly if the dependencies have a cycle; without one, each message comes
    after everything it depends on.
   */
  method Sort(messages: seq<Message>) returns (sorted: seq<Message>, circular: bool)
    requires Distinct(messages)
    ensures multiset(sorted) == multiset(messages)
    ensures Earliest(messages, sorted)
    ensures circular <==> Cyclic(messages)
    ensures !circular ==> InOrder(sorted, Names(messages))
  {
    var remaining, remainset := messages, Names(messages);
    sorted, circular := [], false;
    assert [] + remaining == messages;
    RestOfNone(messages);
    while |remaining| > 0
      invariant Sorting(messages, sorted, remaining, remainset, circular)
      decreases |remaining|
    {
      sorted, remaining, remainset, circular := Round(messages, sorted, remaining, remainset, circular);
    }
    assert sorted + remaining == sorted;
    if !circular { Finished(messages, sorted); }
  }

  lemma RemainingIsPart(messages: seq<Message>, sorted: seq<Message>, remaining: seq<Message>)
    requires Divided(messages, sorted, remaining)
    ensures forall m :: m in remaining ==> m in messages
  {
    forall m | m in remaining ensures m in messages { assert m in multiset(messages); }
  }

  lemma Finished(messages: seq<Message>, sorted: seq<Message>)
    requires Divided(messages, sorted, []) && Distinct(messages) && InOrder(sorted, Names(messages))
    ensures !Cyclic(messages)
  {
    assert sorted + [] == sorted;
    forall m ensures m in sorted <==> m in messages { assert m in multiset(messages) <==> m in multiset(sorted); }
    OrderedIsAcyclic(messages, sorted);
  }
}
