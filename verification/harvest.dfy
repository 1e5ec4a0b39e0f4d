/**
  The collect/scroll/stall loop of `scrape_followers_of`: each round reads
  the anchors the followers dialog currently renders, records every
  username not seen before with its display name, scrolls, and updates the
  stall counter. The browser is the function `render`: `render(k)` is what
  round `k` (counting from 0) sees.
 */
module Harvest {
  import opened Wrappers
  import opened Anchors

  /** The loop gives up after this many consecutive rounds without a new username. */
  const StallLimit: nat := 400

  /** `collected`: the usernames in insertion order, and the display name kept for each. */
  datatype Collected = Collected(keys: seq<string>, names: map<string, string>)

  const Empty: Collected := Collected([], map[])

  predicate NoDup(s: seq<string>) {
    forall i, j :: 0 <= i < j < |s| ==> s[i] != s[j]
  }

  /** The insertion order lists exactly the keys of the dict, each once. */
  ghost predicate Consistent(c: Collected) {
    NoDup(c.keys) && forall u :: u in c.names <==> u in c.keys
  }

  /** A sighting: a username and the display name its anchor shows. */
  type Sighting = (string, string)

  /** The inner `for` loop's body for one anchor: a new username is recorded, anything else skipped. */
  function Absorb(c: Collected, a: Anchor): Collected
  {
    match UserOf(a)
    case None => c
    case Some(u) => if u in c.names then c else Collected(c.keys + [u], c.names[u := NameOf(a)])
  }

  /** One pass of the inner loop over the anchors a round sees. */
  function AbsorbAll(c: Collected, anchors: seq<Anchor>): Collected
  {
    if anchors == [] then c
    else Absorb(AbsorbAll(c, anchors[..|anchors| - 1]), anchors[|anchors| - 1])
  }

  /** `collected` after `n` rounds, whatever the loop's exit rule. */
  function Run(render: nat -> seq<Anchor>, n: nat): Collected
  {
    if n == 0 then Empty else AbsorbAll(Run(render, n - 1), render(n - 1))
  }

  function Size(render: nat -> seq<Anchor>, n: nat): nat
  {
    |Run(render, n).keys|
  }

  /**
    `scroll_tries` after `n` rounds. The first round always resets it,
    because `last_len` starts at -1; later rounds add one when the round
    recorded nothing new and reset it otherwise.
   */
  function Tries(render: nat -> seq<Anchor>, n: nat): nat
  {
    if n <= 1 then 0
    else if Size(render, n) == Size(render, n - 1) then Tries(render, n - 1) + 1
    else 0
  }

  /** The `while` condition, as checked after `n` rounds. */
  predicate Continues(render: nat -> seq<Anchor>, maxFollowers: int, n: nat)
  {
    Size(render, n) < maxFollowers && Tries(render, n) < StallLimit
  }

  function Min(a: int, b: int): int { if a < b then a else b }

  /** A pass never removes or reorders what was already collected. */
  lemma {:induction false} AbsorbAllExtends(c: Collected, anchors: seq<Anchor>)
    ensures |AbsorbAll(c, anchors).keys| >= |c.keys|
    ensures AbsorbAll(c, anchors).keys[..|c.keys|] == c.keys
    ensures forall u :: u in c.names ==> u in AbsorbAll(c, anchors).names && AbsorbAll(c, anchors).names[u] == c.names[u]
  {
    if anchors != [] {
      AbsorbAllExtends(c, anchors[..|anchors| - 1]);
      var d := AbsorbAll(c, anchors[..|anchors| - 1]);
      assert (d.keys + [""])[..|c.keys|] == d.keys[..|c.keys|];
      assert forall x: string :: (d.keys + [x])[..|c.keys|] == d.keys[..|c.keys|];
    }
  }

  /**
    The inner `for` loop of one round: every anchor of the pass, in order;
    one whose href cannot be read or does not name a user is skipped, and a
    username already in the dict keeps the name it was first recorded with.
   */
  method ReadPass(keys0: seq<string>, names0: map<string, string>, anchors: seq<Anchor>)
    returns (keys: seq<string>, names: map<string, string>)
    ensures Collected(keys, names) == AbsorbAll(Collected(keys0, names0), anchors)
  {
    keys, names := keys0, names0;
    var i := 0;
    while i < |anchors|
      invariant 0 <= i <= |anchors|
      invariant Collected(keys, names) == AbsorbAll(Collected(keys0, names0), anchors[..i])
    {
      var a := anchors[i];
      ghost var before := Collected(keys, names);
      assert AbsorbAll(Collected(keys0, names0), anchors[..i + 1]) == Absorb(before, a) by {
        assert anchors[..i + 1][..i] == anchors[..i];
      }
      if a.href.Got? {
        var user := UserFromHref(a.href.value);
        if user.Some? && user.value !in names {
          // a failed inner-text read gives the empty display name
          var fullName := NameOf(a);
          keys := keys + [user.value];
          names := names[user.value := fullName];
        }
      }
      assert Collected(keys, names) == Absorb(before, a);
      i := i + 1;
    }
    assert anchors[..i] == anchors;
  }

  /**
    The loop of `scrape_followers_of`, with `collected` kept as `keys` (its
    insertion order) and `names` (the dict). It stops at the first round
    after which `collected` holds at least `maxFollowers` usernames or
    `StallLimit` rounds in a row added none; the last round may overshoot
    `maxFollowers`, as nothing truncates. The scroll script's outcome is
    ignored by the source, so it does not appear here.
   */
  method CollectFollowers(render: nat -> seq<Anchor>, maxFollowers: int)
    returns (keys: seq<string>, names: map<string, string>, rounds: nat)
    ensures Collected(keys, names) == Run(render, rounds)
    ensures forall k :: 0 <= k < rounds ==> Continues(render, maxFollowers, k)
    ensures !Continues(render, maxFollowers, rounds)
    ensures maxFollowers <= 0 ==> rounds == 0 && keys == []
    ensures maxFollowers > 0 ==> rounds <= 401 * (maxFollowers + 1)
    ensures FirstSeen(Collected(keys, names), Log(render, rounds))
    ensures |keys| >= maxFollowers ||
      (rounds > StallLimit && forall j :: rounds - StallLimit < j <= rounds ==> Size(render, j) == Size(render, j - 1))
  {
    keys, names := [], map[];
    var lastLen := -1;
    var scrollTries := 0;
    rounds := 0;
    while |keys| < maxFollowers && scrollTries < StallLimit
      invariant Collected(keys, names) == Run(render, rounds)
      invariant scrollTries == Tries(render, rounds) && scrollTries <= StallLimit
      invariant rounds == 0 ==> lastLen == -1 && keys == []
      invariant maxFollowers <= 0 ==> rounds == 0
      invariant rounds > 0 ==> lastLen == |keys|
      invariant forall k :: 0 <= k < rounds ==> Continues(render, maxFollowers, k)
      invariant rounds > 0 ==> rounds <= 1 + 401 * Min(|keys|, maxFollowers) + scrollTries
      decreases if rounds == 0 then 1 else 0,
        if |keys| < maxFollowers then maxFollowers - |keys| else 0,
        StallLimit - scrollTries
    {
      assert Continues(render, maxFollowers, rounds);
      AbsorbAllExtends(Collected(keys, names), render(rounds));
      keys, names := ReadPass(keys, names, render(rounds));
      rounds := rounds + 1;
      if |keys| == lastLen {
        scrollTries := scrollTries + 1;
      } else {
        lastLen := |keys|;
        scrollTries := 0;
      }
    }
    RunIsFirstSeen(render, rounds);
    ExitReason(render, maxFollowers, rounds);
  }

  /** A stall of `StallLimit` means that many rounds in a row, all after the first, added nothing. */
  lemma {:induction false} StallMeansNoGrowth(render: nat -> seq<Anchor>, n: nat)
    ensures n == 0 || Tries(render, n) < n
    ensures forall j :: n - Tries(render, n) < j <= n ==> Size(render, j) == Size(render, j - 1)
  {
    if n > 1 && Size(render, n) == Size(render, n - 1) {
      StallMeansNoGrowth(render, n - 1);
    }
  }

  /** Why the loop stopped: the cap was reached, or `StallLimit` rounds in a row found nobody new. */
  lemma ExitReason(render: nat -> seq<Anchor>, maxFollowers: int, n: nat)
    requires !Continues(render, maxFollowers, n)
    requires Tries(render, n) <= StallLimit
    ensures Size(render, n) >= maxFollowers ||
      (n > StallLimit && forall j :: n - StallLimit < j <= n ==> Size(render, j) == Size(render, j - 1))
  {
    StallMeansNoGrowth(render, n);
  }

  /** After a reset, the counter counts the rounds in a row that added nothing. */
  lemma {:induction false} StallCounts(render: nat -> seq<Anchor>, k: nat, t: nat)
    requires k >= 1 && Tries(render, k) == 0
    requires forall j :: k < j <= k + t ==> Size(render, j) == Size(render, j - 1)
    ensures Tries(render, k + t) == t
  {
    if t > 0 {
      StallCounts(render, k, t - 1);
      assert Size(render, k + t) == Size(render, k + t - 1);
    }
  }

  /**
    Once growth stops, the loop ends within the stall limit: `StallLimit`
    rounds in a row without a new username after a reset stop it.
   */
  lemma StallConvergence(render: nat -> seq<Anchor>, maxFollowers: int, k: nat)
    requires k >= 1 && Tries(render, k) == 0
    requires forall j :: k < j <= k + StallLimit ==> Size(render, j) == Size(render, j - 1)
    ensures !Continues(render, maxFollowers, k + StallLimit)
  {
    StallCounts(render, k, StallLimit);
  }

  /**
    A dialog that never yields a new username still runs `StallLimit + 1`
    rounds: round 1 resets the counter, because `last_len` starts at -1.
   */
  lemma NoGrowthRunsOneRoundPastLimit(render: nat -> seq<Anchor>, maxFollowers: int)
    requires forall j :: 1 < j <= 1 + StallLimit ==> Size(render, j) == Size(render, j - 1)
    ensures !Continues(render, maxFollowers, 1 + StallLimit)
    ensures Tries(render, StallLimit) == StallLimit - 1
  {
    StallConvergence(render, maxFollowers, 1);
    StallCounts(render, 1, StallLimit - 1);
  }

  /** Earlier rounds' usernames stay, in place, with the display names first recorded for them. */
  lemma {:induction false} RunGrows(render: nat -> seq<Anchor>, n: nat, m: nat)
    requires n <= m
    ensures |Run(render, m).keys| >= |Run(render, n).keys|
    ensures Run(render, m).keys[..|Run(render, n).keys|] == Run(render, n).keys
    ensures forall u :: u in Run(render, n).names ==>
      u in Run(render, m).names && Run(render, m).names[u] == Run(render, n).names[u]
  {
    if n < m {
      RunGrows(render, n, m - 1);
      AbsorbAllExtends(Run(render, m - 1), render(m - 1));
      var a, b, c := Run(render, n).keys, Run(render, m - 1).keys, Run(render, m).keys;
      assert c[..|a|] == c[..|b|][..|a|];
    }
  }

  /** Every username a pass yields is in the dict once the pass is read. */
  lemma {:induction false} PassRecordsAll(c: Collected, anchors: seq<Anchor>)
    ensures forall k :: 0 <= k < |anchors| && UserOf(anchors[k]).Some? ==>
      UserOf(anchors[k]).value in AbsorbAll(c, anchors).names
  {
    if anchors != [] {
      var init := anchors[..|anchors| - 1];
      PassRecordsAll(c, init);
      AbsorbAllExtends(AbsorbAll(c, init), [anchors[|anchors| - 1]]);
      assert AbsorbAll(AbsorbAll(c, init), [anchors[|anchors| - 1]]) == AbsorbAll(c, anchors) by {
        assert [anchors[|anchors| - 1]][..0] == [];
      }
      forall k | 0 <= k < |anchors| - 1 && UserOf(anchors[k]).Some?
        ensures UserOf(anchors[k]).value in AbsorbAll(c, anchors).names
      {
        assert anchors[k] == init[k];
      }
    }
  }

  /** A pass whose usernames are all known changes nothing. */
  lemma {:induction false} KnownPassChangesNothing(c: Collected, anchors: seq<Anchor>)
    requires forall k :: 0 <= k < |anchors| && UserOf(anchors[k]).Some? ==> UserOf(anchors[k]).value in c.names
    ensures AbsorbAll(c, anchors) == c
  {
    if anchors != [] {
      var init := anchors[..|anchors| - 1];
      forall k | 0 <= k < |init| && UserOf(init[k]).Some?
        ensures UserOf(init[k]).value in c.names
      {
        assert init[k] == anchors[k];
      }
      KnownPassChangesNothing(c, init);
    }
  }

  /** Reading an unchanged dialog a second time finds nobody new, so the stall counter goes up. */
  lemma RereadAddsNothing(c: Collected, anchors: seq<Anchor>)
    ensures AbsorbAll(AbsorbAll(c, anchors), anchors) == AbsorbAll(c, anchors)
  {
    PassRecordsAll(c, anchors);
    KnownPassChangesNothing(AbsorbAll(c, anchors), anchors);
  }

  /** A dialog that shows the same two users in every round. */
  function TwoUsers(k: nat): seq<Anchor>
  {
    [Anchor(Got(Some("/a")), Raised), Anchor(Got(Some("/b/")), Raised)]
  }

  /** Nothing truncates: with a cap of one, the first pass records both users and the loop stops. */
  lemma CapCanBeOvershot()
    ensures Continues(TwoUsers, 1, 0)
    ensures Run(TwoUsers, 1).keys == ["a", "b"]
    ensures !Continues(TwoUsers, 1, 1)
  {
    UserFromHrefExactly(Some("/a"), "a");
    UserFromHrefExactly(Some("/b/"), "b");
    assert "/" + "b" + "/" == "/b/";
    var anchors := TwoUsers(0);
    assert anchors[..1][..0] == [];
    assert anchors[..|anchors| - 1] == anchors[..1];
    var first := AbsorbAll(Empty, anchors[..1]);
    assert AbsorbAll(Empty, anchors[..1][..0]) == Empty;
    assert anchors[..1][|anchors[..1]| - 1] == anchors[0];
    assert first == Absorb(Empty, anchors[0]) == Collected(["a"], map["a" := ""]);
    assert AbsorbAll(Empty, anchors) == Absorb(first, anchors[1]);
    assert Run(TwoUsers, 1) == AbsorbAll(Empty, anchors);
  }

  /*
    An independent description of `collected`: list every sighting of
    every pass in order; then `collected` holds each sighted username once,
    in the order of its first sighting, with the name of that sighting.
   */

  /** The sightings one pass yields, in anchor order; skipped anchors yield none. */
  function Sightings(anchors: seq<Anchor>): seq<Sighting>
  {
    if anchors == [] then []
    else
      var last := anchors[|anchors| - 1];
      Sightings(anchors[..|anchors| - 1]) +
        match UserOf(last) case None => [] case Some(u) => [(u, NameOf(last))]
  }

  /** The sightings of the first `n` rounds, in order. */
  function Log(render: nat -> seq<Anchor>, n: nat): seq<Sighting>
  {
    if n == 0 then [] else Log(render, n - 1) + Sightings(render(n - 1))
  }

  /** The position of the first sighting of `u`, or `|log|` if there is none. */
  function FirstIndex(log: seq<Sighting>, u: string): (k: nat)
    ensures k <= |log|
    ensures k < |log| ==> log[k].0 == u
    ensures forall i :: 0 <= i < k ==> log[i].0 != u
  {
    if log == [] then 0
    else if log[0].0 == u then 0
    else 1 + FirstIndex(log[1..], u)
  }

  /** The display name at the first sighting of `u` ("" if there is none). */
  function FirstName(log: seq<Sighting>, u: string): string
  {
    var k := FirstIndex(log, u);
    if k < |log| then log[k].1 else ""
  }

  /** `c` is what first-seen-wins deduplication of `log` gives. */
  ghost predicate FirstSeen(c: Collected, log: seq<Sighting>)
  {
    && Consistent(c)
    && (forall u :: u in c.names <==> FirstIndex(log, u) < |log|)
    && (forall i, j :: 0 <= i < j < |c.keys| ==> FirstIndex(log, c.keys[i]) < FirstIndex(log, c.keys[j]))
    && (forall u :: u in c.names ==> c.names[u] == FirstName(log, u))
  }

  /** Dedup one sighting at a time. */
  function Step(c: Collected, s: Sighting): Collected
  {
    if s.0 in c.names then c else Collected(c.keys + [s.0], c.names[s.0 := s.1])
  }

  function Record(c: Collected, log: seq<Sighting>): Collected
  {
    if log == [] then c else Step(Record(c, log[..|log| - 1]), log[|log| - 1])
  }

  lemma FirstIndexSnoc(log: seq<Sighting>, s: Sighting, u: string)
    ensures FirstIndex(log + [s], u) ==
      if FirstIndex(log, u) < |log| then FirstIndex(log, u)
      else if s.0 == u then |log| else |log| + 1
  {
    var k, k' := FirstIndex(log, u), FirstIndex(log + [s], u);
    if k < |log| {
      assert (log + [s])[k].0 == u;
    } else if s.0 == u {
      assert (log + [s])[|log|].0 == u;
    }
  }

  lemma {:induction false} RecordConcat(c: Collected, x: seq<Sighting>, y: seq<Sighting>)
    ensures Record(c, x + y) == Record(Record(c, x), y)
  {
    if y == [] {
      assert x + y == x;
    } else {
      assert (x + y)[..|x + y| - 1] == x + y[..|y| - 1];
      RecordConcat(c, x, y[..|y| - 1]);
    }
  }

  lemma {:induction false} AbsorbAllRecords(c: Collected, anchors: seq<Anchor>)
    ensures AbsorbAll(c, anchors) == Record(c, Sightings(anchors))
  {
    if anchors != [] {
      var init, last := anchors[..|anchors| - 1], anchors[|anchors| - 1];
      AbsorbAllRecords(c, init);
      match UserOf(last)
      case None =>
        assert Sightings(anchors) == Sightings(init) + [];
        assert Sightings(init) + [] == Sightings(init);
        assert AbsorbAll(c, anchors) == Absorb(AbsorbAll(c, init), last) == AbsorbAll(c, init);
      case Some(u) =>
        RecordConcat(c, Sightings(init), [(u, NameOf(last))]);
        assert [(u, NameOf(last))][..0] == [];
    }
  }

  lemma {:induction false} RunRecordsLog(render: nat -> seq<Anchor>, n: nat)
    ensures Run(render, n) == Record(Empty, Log(render, n))
  {
    if n > 0 {
      RunRecordsLog(render, n - 1);
      AbsorbAllRecords(Run(render, n - 1), render(n - 1));
      RecordConcat(Empty, Log(render, n - 1), Sightings(render(n - 1)));
    }
  }

  /** Adding a sighting at the end leaves the first sightings already made where they were. */
  lemma SnocKeepsFirsts(log: seq<Sighting>, s: Sighting)
    ensures forall u :: FirstIndex(log, u) < |log| ==>
      FirstIndex(log + [s], u) == FirstIndex(log, u) && FirstName(log + [s], u) == FirstName(log, u)
    ensures forall u :: FirstIndex(log, u) == |log| && u != s.0 ==> FirstIndex(log + [s], u) == |log| + 1
    ensures FirstIndex(log, s.0) == |log| ==> FirstIndex(log + [s], s.0) == |log| && FirstName(log + [s], s.0) == s.1
  {
    forall u ensures FirstIndex(log, u) < |log| ==>
      FirstIndex(log + [s], u) == FirstIndex(log, u) && FirstName(log + [s], u) == FirstName(log, u)
    {
      FirstIndexSnoc(log, s, u);
      if FirstIndex(log, u) < |log| {
        assert (log + [s])[FirstIndex(log, u)] == log[FirstIndex(log, u)];
      }
    }
    forall u | FirstIndex(log, u) == |log| && u != s.0 ensures FirstIndex(log + [s], u) == |log| + 1 {
      FirstIndexSnoc(log, s, u);
    }
    FirstIndexSnoc(log, s, s.0);
  }

  lemma KnownStepKeepsFirstSeen(c: Collected, log: seq<Sighting>, s: Sighting)
    requires FirstSeen(c, log)
    requires s.0 in c.names
    ensures FirstSeen(Step(c, s), log + [s])
  {
    SnocKeepsFirsts(log, s);
  }

  lemma NewStepConsistent(c: Collected, s: Sighting)
    requires Consistent(c) && s.0 !in c.names
    ensures Consistent(Step(c, s))
  {
    var c' := Step(c, s);
    forall i, j | 0 <= i < j < |c'.keys| ensures c'.keys[i] != c'.keys[j] {
      if j == |c.keys| {
        assert c.keys[i] in c.names;
      }
    }
  }

  lemma NewStepOrder(c: Collected, log: seq<Sighting>, s: Sighting)
    requires FirstSeen(c, log) && s.0 !in c.names
    ensures var c', log' := Step(c, s), log + [s];
      forall i, j :: 0 <= i < j < |c'.keys| ==> FirstIndex(log', c'.keys[i]) < FirstIndex(log', c'.keys[j])
  {
    var c', log' := Step(c, s), log + [s];
    SnocKeepsFirsts(log, s);
    forall i, j | 0 <= i < j < |c'.keys| ensures FirstIndex(log', c'.keys[i]) < FirstIndex(log', c'.keys[j]) {
      assert c.keys[i] in c.names;
      if j < |c.keys| {
        assert c.keys[j] in c.names;
      }
    }
  }

  lemma NewStepKeepsFirstSeen(c: Collected, log: seq<Sighting>, s: Sighting)
    requires FirstSeen(c, log)
    requires s.0 !in c.names
    ensures FirstSeen(Step(c, s), log + [s])
  {
    NewStepConsistent(c, s);
    NewStepOrder(c, log, s);
    SnocKeepsFirsts(log, s);
  }

  lemma {:induction false} RecordIsFirstSeen(log: seq<Sighting>)
    ensures FirstSeen(Record(Empty, log), log)
  {
    if log != [] {
      var init := log[..|log| - 1];
      RecordIsFirstSeen(init);
      if log[|log| - 1].0 in Record(Empty, init).names {
        KnownStepKeepsFirstSeen(Record(Empty, init), init, log[|log| - 1]);
      } else {
        NewStepKeepsFirstSeen(Record(Empty, init), init, log[|log| - 1]);
      }
      assert init + [log[|log| - 1]] == log;
    }
  }

  /**
    After any number of rounds, `collected` holds each username sighted so
    far exactly once, in the order of first sighting across all passes,
    with the display name of that first sighting.
   */
  lemma RunIsFirstSeen(render: nat -> seq<Anchor>, n: nat)
    ensures FirstSeen(Run(render, n), Log(render, n))
  {
    RunRecordsLog(render, n);
    RecordIsFirstSeen(Log(render, n));
  }
}
