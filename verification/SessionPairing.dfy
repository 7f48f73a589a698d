/** What the inferred sessions are: the LIFO pairs are well nested and as many as any
    matching can have, and dropping old events never changes a surviving pair. */
module SessionPairing {
  import opened Prelude
  import opened DriverSessions

  // ------------------------------------------------------ shape of the pairs

  ghost predicate StackOk(evs: seq<Visit>, key: Key, stack: seq<Visit>) {
    && (forall i :: 0 <= i < |stack| ==> stack[i] in evs && stack[i].direction == Entry && stack[i].key == key)
    && (forall i, j :: 0 <= i < j < |stack| ==> stack[i].rank < stack[j].rank)
  }

  ghost predicate StayOk(evs: seq<Visit>, p: Stay) {
    && p.entry in evs && p.exit in evs
    && p.entry.direction == Entry && p.exit.direction == Exit
    && p.entry.key == p.exit.key
    && p.entry.rank < p.exit.rank
  }

  /** Neither crossing nor sharing an event: `p` is over before `q` begins, or inside `q`. */
  ghost predicate NestedOrApart(p: Stay, q: Stay) {
    p.exit.rank < q.entry.rank || (q.entry.rank < p.entry.rank && p.exit.rank < q.exit.rank)
  }

  ghost predicate WellNested(pairs: seq<Stay>) {
    forall i, j :: 0 <= i < j < |pairs| ==>
      && pairs[i].exit.rank < pairs[j].exit.rank
      && (pairs[i].entry.key == pairs[j].entry.key ==> NestedOrApart(pairs[i], pairs[j]))
  }

  lemma InitFacts(evs: seq<Visit>)
    requires Chronological(evs) && evs != []
    ensures Chronological(evs[..|evs| - 1])
    ensures forall e :: e in evs[..|evs| - 1] ==> e in evs && e.rank < evs[|evs| - 1].rank
    ensures forall e :: e in evs ==> e in evs[..|evs| - 1] || e == evs[|evs| - 1]
    ensures evs[|evs| - 1] in evs && evs[|evs| - 1] !in evs[..|evs| - 1]
  {
    var n := |evs| - 1;
    assert evs == evs[..n] + [evs[n]];
  }

  lemma {:induction false} OpenFacts(evs: seq<Visit>, key: Key)
    requires Chronological(evs)
    ensures StackOk(evs, key, Open(evs, key))
  {
    if evs != [] {
      InitFacts(evs);
      OpenFacts(evs[..|evs| - 1], key);
    }
  }

  lemma {:induction false} PairsFacts(evs: seq<Visit>)
    requires Chronological(evs)
    ensures forall i :: 0 <= i < |Pairs(evs)| ==> StayOk(evs, Pairs(evs)[i])
  {
    if evs != [] {
      InitFacts(evs);
      var before := evs[..|evs| - 1];
      PairsFacts(before);
      OpenFacts(before, evs[|evs| - 1].key);
    }
  }

  /** An entry still waiting lies outside every completed session of its key. */
  lemma {:induction false} OpenOutside(evs: seq<Visit>, e: Visit, p: Stay)
    requires Chronological(evs)
    requires p in Pairs(evs) && e in Open(evs, p.entry.key)
    ensures e.rank < p.entry.rank || e.rank > p.exit.rank
  {
    InitFacts(evs);
    var before := evs[..|evs| - 1];
    var ev := evs[|evs| - 1];
    var stack := Open(before, p.entry.key);
    OpenFacts(before, p.entry.key);
    if p in Pairs(before) {
      if e in stack {
        OpenOutside(before, e, p);
      } else {
        PairsFacts(before);
        assert StayOk(before, p);
      }
    } else {
      OpenFacts(before, ev.key);
    }
  }

  lemma NewStayNests(before: seq<Visit>, ev: Visit, p: Stay)
    requires Chronological(before) && (forall e :: e in before ==> e.rank < ev.rank)
    requires p in Pairs(before) && p.entry.key == ev.key
    requires ev.direction == Exit && Open(before, ev.key) != []
    ensures var stack := Open(before, ev.key); NestedOrApart(p, Stay(stack[|stack| - 1], ev))
  {
    var stack := Open(before, ev.key);
    OpenOutside(before, stack[|stack| - 1], p);
    PairsFacts(before);
    assert StayOk(before, p);
  }

  lemma WellNestedSnoc(pairs: seq<Stay>, q: Stay)
    requires WellNested(pairs)
    requires forall i :: 0 <= i < |pairs| ==> pairs[i].exit.rank < q.exit.rank
    requires forall i :: 0 <= i < |pairs| && pairs[i].entry.key == q.entry.key ==> NestedOrApart(pairs[i], q)
    ensures WellNested(pairs + [q])
  {
  }

  lemma WellNestedStep(before: seq<Visit>, ev: Visit)
    requires Chronological(before) && (forall e :: e in before ==> e.rank < ev.rank)
    requires WellNested(Pairs(before))
    ensures WellNested(Pairs(before) + Completed(Open(before, ev.key), ev))
  {
    var done := Pairs(before);
    var stack := Open(before, ev.key);
    if Completed(stack, ev) == [] {
      assert done + [] == done;
    } else {
      var q := Stay(stack[|stack| - 1], ev);
      assert q.entry.key == ev.key by { OpenFacts(before, ev.key); }
      forall i | 0 <= i < |done|
        ensures done[i].exit.rank < ev.rank
      {
        PairsFacts(before);
        assert StayOk(before, done[i]);
      }
      forall i | 0 <= i < |done| && done[i].entry.key == q.entry.key
        ensures NestedOrApart(done[i], q)
      {
        NewStayNests(before, ev, done[i]);
      }
      WellNestedSnoc(done, q);
    }
  }

  /** Every chronological list pairs up as promised: each session is an entry with a later
      exit of the same plate and site, exits are in order, no event is used twice, and no
      two sessions of a key cross. */
  lemma {:induction false} PairsWellNested(evs: seq<Visit>)
    requires Chronological(evs)
    ensures forall i :: 0 <= i < |Pairs(evs)| ==> StayOk(evs, Pairs(evs)[i])
    ensures WellNested(Pairs(evs))
  {
    if evs != [] {
      InitFacts(evs);
      PairsWellNested(evs[..|evs| - 1]);
      WellNestedStep(evs[..|evs| - 1], evs[|evs| - 1]);
    }
    PairsFacts(evs);
  }

  // ------------------------------------------------------------- optimality

  /** Any way to match exits to earlier entries of the same key without reusing an event. */
  ghost predicate IsMatching(evs: seq<Visit>, m: map<Visit, Visit>) {
    && (forall x :: x in m ==> StayOk(evs, Stay(m[x], x)))
    && (forall x, y :: x in m && y in m && m[x] == m[y] ==> x == y)
  }

  function CountKeys(pairs: seq<Stay>, keys: set<Key>): nat {
    if pairs == [] then 0
    else CountKeys(pairs[..|pairs| - 1], keys) + if pairs[|pairs| - 1].entry.key in keys then 1 else 0
  }

  lemma CountSnoc(pairs: seq<Stay>, p: Stay, keys: set<Key>)
    ensures CountKeys(pairs + [p], keys) == CountKeys(pairs, keys) + if p.entry.key in keys then 1 else 0
  {
    assert (pairs + [p])[..|pairs|] == pairs;
  }

  /** How the count of a key's sessions moves with the last event. */
  lemma CountStep(evs: seq<Visit>, key: Key)
    requires Chronological(evs) && evs != []
    ensures var before := evs[..|evs| - 1]; var ev := evs[|evs| - 1];
            CountKeys(Pairs(evs), {key}) == CountKeys(Pairs(before), {key}) +
              if ev.key == key then |Completed(Open(before, key), ev)| else 0
  {
    var before := evs[..|evs| - 1];
    var ev := evs[|evs| - 1];
    OpenFacts(before, ev.key);
    var stack := Open(before, ev.key);
    if Completed(stack, ev) == [] {
      assert Pairs(evs) == Pairs(before);
    } else {
      CountSnoc(Pairs(before), Completed(stack, ev)[0], {key});
    }
  }

  ghost function EntrySet(evs: seq<Visit>, key: Key): set<Visit> {
    if evs == [] then {}
    else
      var rest := EntrySet(evs[..|evs| - 1], key);
      var ev := evs[|evs| - 1];
      if ev.direction == Entry && ev.key == key then rest + {ev} else rest
  }

  lemma {:induction false} EntrySetFacts(evs: seq<Visit>, key: Key)
    ensures forall e :: e in EntrySet(evs, key) <==> e in evs && e.direction == Entry && e.key == key
  {
    if evs != [] {
      EntrySetFacts(evs[..|evs| - 1], key);
      assert evs == evs[..|evs| - 1] + [evs[|evs| - 1]];
    }
  }

  /** Every entry of a key is either in a session or still open. */
  lemma {:induction false} EntriesAccounted(evs: seq<Visit>, key: Key)
    requires Chronological(evs)
    ensures |EntrySet(evs, key)| == CountKeys(Pairs(evs), {key}) + |Open(evs, key)|
  {
    if evs != [] {
      EntriesAccounted(evs[..|evs| - 1], key);
      CountStep(evs, key);
      assert evs[|evs| - 1] !in EntrySet(evs[..|evs| - 1], key) by {
        InitFacts(evs);
        EntrySetFacts(evs[..|evs| - 1], key);
      }
    }
  }

  /** The last event of the list enters a matching only as an exit. */
  lemma MatchingPrefix(evs: seq<Visit>, m: map<Visit, Visit>)
    requires Chronological(evs) && evs != [] && IsMatching(evs, m)
    ensures IsMatching(evs[..|evs| - 1], m - {evs[|evs| - 1]})
    ensures forall x :: x in m ==> m[x] in evs[..|evs| - 1]
  {
    InitFacts(evs);
    forall x | x in m ensures m[x] in evs[..|evs| - 1] {
      assert StayOk(evs, Stay(m[x], x));
    }
    forall x | x in m && x != evs[|evs| - 1] ensures StayOk(evs[..|evs| - 1], Stay(m[x], x)) {
      assert StayOk(evs, Stay(m[x], x));
    }
  }

  /** With no open entry left, no matching of the key can use more than the paired entries. */
  lemma MatchingWithinEntries(evs: seq<Visit>, m: map<Visit, Visit>, key: Key)
    requires Chronological(evs) && evs != [] && IsMatching(evs, m)
    requires forall x :: x in m ==> x.key == key
    ensures |m| <= |EntrySet(evs[..|evs| - 1], key)|
  {
    var entries := EntrySet(evs[..|evs| - 1], key);
    forall x | x in m ensures m[x] in entries {
      MatchingPrefix(evs, m);
      EntrySetFacts(evs[..|evs| - 1], key);
      assert StayOk(evs, Stay(m[x], x));
    }
    InjectionBound(m, entries);
  }

  lemma RemoveKey<A, B>(m: map<A, B>, x: A)
    ensures |m| == |m - {x}| + if x in m then 1 else 0
  {
    assert (m - {x}).Keys == m.Keys - {x};
    if x !in m {
      assert m - {x} == m;
    }
  }

  lemma {:induction false} OptimalForKey(evs: seq<Visit>, m: map<Visit, Visit>, key: Key)
    requires Chronological(evs) && IsMatching(evs, m)
    requires forall x :: x in m ==> x.key == key
    ensures |m| <= CountKeys(Pairs(evs), {key})
  {
    if evs == [] {
      assert forall x :: x in m ==> m[x] in evs;
      assert m == map[];
    } else {
      var before := evs[..|evs| - 1];
      var ev := evs[|evs| - 1];
      CountStep(evs, key);
      InitFacts(evs);
      if ev in m && Open(before, key) == [] {
        EntriesAccounted(before, key);
        MatchingWithinEntries(evs, m, key);
      } else {
        MatchingPrefix(evs, m);
        OptimalForKey(before, m - {ev}, key);
        RemoveKey(m, ev);
        assert ev in m ==> StayOk(evs, Stay(m[ev], ev));
      }
    }
  }

  lemma {:induction false} CountSplit(pairs: seq<Stay>, keys: set<Key>, key: Key)
    requires key in keys
    ensures CountKeys(pairs, keys) == CountKeys(pairs, {key}) + CountKeys(pairs, keys - {key})
  {
    if pairs != [] {
      CountSplit(pairs[..|pairs| - 1], keys, key);
    }
  }

  lemma {:induction false} CountBound(pairs: seq<Stay>, keys: set<Key>)
    ensures CountKeys(pairs, keys) <= |pairs|
  {
    if pairs != [] {
      CountBound(pairs[..|pairs| - 1], keys);
    }
  }

  lemma SplitByKey(m: map<Visit, Visit>, key: Key) returns (mine: map<Visit, Visit>, others: map<Visit, Visit>)
    ensures |m| == |mine| + |others|
    ensures forall x :: x in mine ==> x in m && mine[x] == m[x] && x.key == key
    ensures forall x :: x in others ==> x in m && others[x] == m[x] && x.key != key
  {
    var s := set x | x in m && x.key == key;
    others := m - s;
    mine := m - others.Keys;
    assert mine.Keys == s;
    assert m.Keys == s + others.Keys;
    assert |m.Keys| == |s| + |others.Keys|;
  }

  lemma {:induction false} OptimalForKeys(evs: seq<Visit>, m: map<Visit, Visit>, keys: set<Key>)
    requires Chronological(evs) && IsMatching(evs, m)
    requires forall x :: x in m ==> x.key in keys
    ensures |m| <= CountKeys(Pairs(evs), keys)
    decreases |keys|
  {
    if keys == {} {
      assert m == map[];
    } else {
      var key :| key in keys;
      var mine, others := SplitByKey(m, key);
      OptimalForKey(evs, mine, key);
      OptimalForKeys(evs, others, keys - {key});
      CountSplit(Pairs(evs), keys, key);
    }
  }

  /** No matching of exits to earlier entries completes more sessions than LIFO does. */
  lemma PairsOptimal(evs: seq<Visit>, m: map<Visit, Visit>)
    requires Chronological(evs) && IsMatching(evs, m)
    ensures |m| <= |Pairs(evs)|
  {
    var keys := set x | x in m :: x.key;
    OptimalForKeys(evs, m, keys);
    CountBound(Pairs(evs), keys);
  }

  /** The pairs as a matching: each exit of the first `n` with its entry. */
  function AsMatching(pairs: seq<Stay>, n: nat): map<Visit, Visit>
    requires n <= |pairs|
  {
    if n == 0 then map[] else AsMatching(pairs, n - 1)[pairs[n - 1].exit := pairs[n - 1].entry]
  }

  lemma {:induction false} AsMatchingFacts(pairs: seq<Stay>, n: nat)
    requires n <= |pairs| && WellNested(pairs)
    ensures |AsMatching(pairs, n)| == n
    ensures forall x :: x in AsMatching(pairs, n) ==>
              exists i :: 0 <= i < n && pairs[i] == Stay(AsMatching(pairs, n)[x], x)
  {
    if n > 0 {
      AsMatchingFacts(pairs, n - 1);
      var m, p := AsMatching(pairs, n - 1), pairs[n - 1];
      assert p.exit !in m;
      forall x | x in AsMatching(pairs, n)
        ensures exists i :: 0 <= i < n && pairs[i] == Stay(AsMatching(pairs, n)[x], x)
      {
        if x == p.exit {
          assert pairs[n - 1] == Stay(AsMatching(pairs, n)[x], x);
        } else {
          var i :| 0 <= i < n - 1 && pairs[i] == Stay(m[x], x);
          assert pairs[i] == Stay(AsMatching(pairs, n)[x], x);
        }
      }
    }
  }

  lemma EntriesDistinct(evs: seq<Visit>, pairs: seq<Stay>, i: nat, j: nat)
    requires i < |pairs| && j < |pairs| && WellNested(pairs)
    requires StayOk(evs, pairs[i]) && StayOk(evs, pairs[j])
    ensures pairs[i].entry == pairs[j].entry ==> i == j
  {
    assert i < j && pairs[i].entry.key == pairs[j].entry.key ==> NestedOrApart(pairs[i], pairs[j]);
    assert j < i && pairs[i].entry.key == pairs[j].entry.key ==> NestedOrApart(pairs[j], pairs[i]);
  }

  /** The bound is reached: the sessions themselves are a matching of that size. */
  lemma PairsAreMatching(evs: seq<Visit>)
    requires Chronological(evs)
    ensures IsMatching(evs, AsMatching(Pairs(evs), |Pairs(evs)|))
    ensures |AsMatching(Pairs(evs), |Pairs(evs)|)| == |Pairs(evs)|
  {
    var pairs := Pairs(evs);
    var m := AsMatching(pairs, |pairs|);
    PairsWellNested(evs);
    AsMatchingFacts(pairs, |pairs|);
    forall x, y | x in m && y in m && m[x] == m[y] ensures x == y {
      var i :| 0 <= i < |pairs| && pairs[i] == Stay(m[x], x);
      var j :| 0 <= j < |pairs| && pairs[j] == Stay(m[y], y);
      EntriesDistinct(evs, pairs, i, j);
    }
  }

  // ------------------------------------------------------ truncation soundness

  function Only(evs: seq<Visit>, keep: set<Visit>): seq<Visit> {
    if evs == [] then []
    else
      var rest := Only(evs[..|evs| - 1], keep);
      if evs[|evs| - 1] in keep then rest + [evs[|evs| - 1]] else rest
  }

  function EnteredIn(pairs: seq<Stay>, keep: set<Visit>): seq<Stay> {
    if pairs == [] then []
    else
      var rest := EnteredIn(pairs[..|pairs| - 1], keep);
      if pairs[|pairs| - 1].entry in keep then rest + [pairs[|pairs| - 1]] else rest
  }

  /** A window: once an event of a plate is inside, all later events of that plate are. */
  ghost predicate SuffixPerPlate(evs: seq<Visit>, keep: set<Visit>) {
    forall i, j :: 0 <= i < j < |evs| && evs[i].key.plate == evs[j].key.plate && evs[i] in keep ==> evs[j] in keep
  }

  /** The stack over the whole history is some dropped entries below the window's stack. */
  ghost predicate StackedOn(full: seq<Visit>, windowed: seq<Visit>, keep: set<Visit>) {
    && |windowed| <= |full|
    && full[|full| - |windowed|..] == windowed
    && (forall i :: 0 <= i < |full| - |windowed| ==> full[i] !in keep)
    && (forall i :: 0 <= i < |windowed| ==> windowed[i] in keep)
  }

  lemma {:induction false} OnlyFacts(evs: seq<Visit>, keep: set<Visit>)
    requires Chronological(evs)
    ensures Chronological(Only(evs, keep))
    ensures forall e :: e in Only(evs, keep) <==> e in evs && e in keep
  {
    if evs != [] {
      InitFacts(evs);
      var n := |evs| - 1;
      OnlyFacts(evs[..n], keep);
      var rest := Only(evs[..n], keep);
      forall i | 0 <= i < |rest|
        ensures rest[i].rank < evs[n].rank && rest[i].occurredAt <= evs[n].occurredAt
      {
        assert rest[i] in rest;
      }
    }
  }

  /** The window holds nothing of a plate whose event is being dropped. */
  lemma WindowEmptyBeforeDrop(evs: seq<Visit>, keep: set<Visit>, key: Key)
    requires Chronological(evs) && evs != [] && SuffixPerPlate(evs, keep)
    requires evs[|evs| - 1] !in keep && evs[|evs| - 1].key.plate == key.plate
    ensures Open(Only(evs[..|evs| - 1], keep), key) == []
  {
    InitFacts(evs);
    var before := evs[..|evs| - 1];
    OnlyFacts(before, keep);
    OpenFacts(Only(before, keep), key);
    forall e | e in before && e.key.plate == key.plate ensures e !in keep {
      var i :| 0 <= i < |before| && before[i] == e;
      assert evs[i] == e;
    }
    var stack := Open(Only(before, keep), key);
    assert stack != [] ==> stack[0] in Only(before, keep);
  }

  lemma StackedKept(full: seq<Visit>, windowed: seq<Visit>, keep: set<Visit>, ev: Visit)
    requires StackedOn(full, windowed, keep) && ev in keep
    ensures StackedOn(After(full, ev), After(windowed, ev), keep)
  {
    if ev.direction == Entry {
      assert (full + [ev])[|full| - |windowed|..] == windowed + [ev];
    } else if ev.direction == Exit && windowed != [] {
      assert full[..|full| - 1][|full| - |windowed|..] == windowed[..|windowed| - 1];
    }
  }

  lemma {:induction false} StacksAgree(evs: seq<Visit>, keep: set<Visit>, key: Key)
    requires Chronological(evs) && SuffixPerPlate(evs, keep)
    ensures StackedOn(Open(evs, key), Open(Only(evs, keep), key), keep)
  {
    if evs != [] {
      InitFacts(evs);
      var before := evs[..|evs| - 1];
      var ev := evs[|evs| - 1];
      StacksAgree(before, keep, key);
      var window := Only(before, keep);
      if ev in keep {
        assert (window + [ev])[..|window|] == window;
        StackedKept(Open(before, key), Open(window, key), keep, ev);
      } else if ev.key == key {
        WindowEmptyBeforeDrop(evs, keep, key);
        assert StackedOn(After(Open(before, key), ev), [], keep);
      }
    }
  }

  /** What the last event adds to the window is what it adds to the full history, less the
      session of a dropped entry. */
  lemma EnteredInStep(pairs: seq<Stay>, full: seq<Visit>, windowed: seq<Visit>, keep: set<Visit>, ev: Visit)
    requires StackedOn(full, windowed, keep)
    ensures EnteredIn(pairs + Completed(full, ev), keep) == EnteredIn(pairs, keep) + Completed(windowed, ev)
  {
    if Completed(full, ev) == [] {
      assert pairs + [] == pairs;
    } else {
      assert (pairs + Completed(full, ev))[..|pairs|] == pairs;
      assert windowed != [] ==> windowed[|windowed| - 1] == full[|full| - 1];
    }
  }

  /** Dropping the older events of each plate neither re-pairs nor invents a session: what is
      left is, in the same order, exactly the full history's sessions whose entry was kept. */
  lemma {:induction false} TruncationSound(evs: seq<Visit>, keep: set<Visit>)
    requires Chronological(evs) && SuffixPerPlate(evs, keep)
    ensures Pairs(Only(evs, keep)) == EnteredIn(Pairs(evs), keep)
  {
    if evs != [] {
      var before := evs[..|evs| - 1];
      var ev := evs[|evs| - 1];
      var window := Only(before, keep);
      TruncationSound(before, keep);
      StacksAgree(before, keep, ev.key);
      EnteredInStep(Pairs(before), Open(before, ev.key), Open(window, ev.key), keep, ev);
      if ev in keep {
        assert (window + [ev])[..|window|] == window;
      } else {
        WindowEmptyBeforeDrop(evs, keep, ev.key);
      }
    }
  }
}
