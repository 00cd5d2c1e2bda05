/** `GetAllComments` in `internal/video/comments.go`: the comment (danmaku)
    history of a video, gathered through a window that returns the comments
    at or after a playback-time watermark, deduplicated by id and sorted by
    playback time. The history request is the `fetch` parameter. */
module Comments {
  import opened Wrappers

  /** `Message`. The time stamps are kept as their text; `Mentions` is left
      out (its structure is unknown and nothing reads it). */
  datatype Message = Message(
    id: string,
    playbackTime: int,
    groupId: string,
    message: string,
    nickname: string,
    senderId: string,
    priority: bool,
    endTimeInSeconds: Option<int>,
    createdAt: string,
    sentAt: string,
    updatedAt: string)

  /** One history request: the comments whose playback time is at or after
      the watermark (inclusive), in ascending order, or an error. */
  type Fetch = int -> Result<seq<Message>, string>

  /** The ids occurring in `msgs`. */
  function Ids(msgs: seq<Message>): set<string> {
    set m | m in msgs :: m.id
  }

  lemma IdsAppend(a: seq<Message>, b: seq<Message>)
    ensures Ids(a + b) == Ids(a) + Ids(b)
  {
    forall id | id in Ids(a + b) ensures id in Ids(a) + Ids(b) {
      var m :| m in a + b && m.id == id;
    }
    forall id | id in Ids(a) + Ids(b) ensures id in Ids(a + b) {
      if id in Ids(a) {
        var m :| m in a && m.id == id;
        assert m in a + b;
      } else {
        var m :| m in b && m.id == id;
        assert m in a + b;
      }
    }
  }

  lemma IdsEmpty(a: seq<Message>)
    requires |a| == 0
    ensures Ids(a) == {}
  {
  }

  lemma IdsSnoc(a: seq<Message>, m: Message)
    ensures Ids(a + [m]) == Ids(a) + {m.id}
  {
    IdsAppend(a, [m]);
    assert Ids([m]) == {m.id};
  }

  /** The last message in `msgs` with the given id: the copy a map keyed by
      id holds after storing `msgs` in order. */
  function LatestWith(msgs: seq<Message>, id: string): (m: Message)
    requires id in Ids(msgs)
    ensures m in msgs && m.id == id
  {
    var last := msgs[|msgs| - 1];
    assert msgs == msgs[..|msgs| - 1] + [last];
    IdsSnoc(msgs[..|msgs| - 1], last);
    if last.id == id then last else LatestWith(msgs[..|msgs| - 1], id)
  }

  /** The latest copy in `a + b` is the one in `b` when `b` has the id. */
  lemma {:induction false} LatestWithAppend(a: seq<Message>, b: seq<Message>, id: string)
    requires id in Ids(a + b)
    ensures id in Ids(b) ==> LatestWith(a + b, id) == LatestWith(b, id)
    ensures id !in Ids(b) ==> id in Ids(a) && LatestWith(a + b, id) == LatestWith(a, id)
    decreases |b|
  {
    IdsAppend(a, b);
    if |b| > 0 {
      var last := b[|b| - 1];
      var b' := b[..|b| - 1];
      assert b == b' + [last];
      assert (a + b)[..|a + b| - 1] == a + b';
      IdsSnoc(b', last);
      IdsAppend(a, b');
      if last.id != id {
        LatestWithAppend(a, b', id);
      }
    } else {
      assert a + b == a;
    }
  }

  /** A map holds each message under its own id. */
  predicate KeyedById(store: map<string, Message>) {
    forall id :: id in store ==> store[id].id == id
  }

  /** `m` is what a map keyed by id holds after storing `msgs`, in order,
      on top of `store`: every id seen so far, each with its latest copy. */
  predicate Stored(store: map<string, Message>, msgs: seq<Message>, m: map<string, Message>) {
    && m.Keys == store.Keys + Ids(msgs)
    && forall id :: id in m ==> m[id] == if id in Ids(msgs) then LatestWith(msgs, id) else store[id]
  }

  /** Storing a batch into the map, one comment after another
      (comments.go:101-108): the updated map and how many ids were new.
      What it computes is stated by `AbsorbStores` and `AbsorbCount`. */
  function Absorb(store: map<string, Message>, batch: seq<Message>): (map<string, Message>, nat) {
    if |batch| == 0 then (store, 0)
    else AbsorbOne(Absorb(store, batch[..|batch| - 1]), batch[|batch| - 1])
  }

  /** The map `Absorb` returns holds every id seen so far, each with its
      latest copy, and stays keyed by id. */
  lemma {:induction false} AbsorbStores(store: map<string, Message>, batch: seq<Message>)
    ensures Stored(store, batch, Absorb(store, batch).0)
    ensures KeyedById(store) ==> KeyedById(Absorb(store, batch).0)
    decreases |batch|
  {
    if |batch| == 0 {
      IdsEmpty(batch);
    } else {
      AbsorbStores(store, batch[..|batch| - 1]);
      AbsorbSnoc(store, batch, Absorb(store, batch[..|batch| - 1]));
    }
  }

  /** The ids stored after a batch: those stored before and the batch's. */
  lemma AbsorbKeys(store: map<string, Message>, batch: seq<Message>)
    ensures Absorb(store, batch).0.Keys == store.Keys + Ids(batch)
  {
    AbsorbStores(store, batch);
  }

  /** Storing one comment: the map with the comment under its id, and the
      count, grown by one when the id is new to the map. */
  function AbsorbOne(prev: (map<string, Message>, nat), c: Message): (map<string, Message>, nat) {
    (prev.0[c.id := c], if c.id in prev.0 then prev.1 else prev.1 + 1)
  }

  lemma AbsorbSnoc(store: map<string, Message>, batch: seq<Message>, prev: (map<string, Message>, nat))
    requires |batch| > 0
    requires Stored(store, batch[..|batch| - 1], prev.0)
    requires KeyedById(store) ==> KeyedById(prev.0)
    ensures var r := AbsorbOne(prev, batch[|batch| - 1]);
      && Stored(store, batch, r.0)
      && (KeyedById(store) ==> KeyedById(r.0))
  {
    var init := batch[..|batch| - 1];
    var c := batch[|batch| - 1];
    LastSplit(batch);
    StoreSnoc(store, init, c, prev.0);
    if KeyedById(store) {
      KeyedSnoc(prev.0, c);
    }
  }

  /** The count `Absorb` returns is the number of batch ids the map did not
      have (comments.go:103-106 counts an id each time it is absent). */
  lemma {:induction false} AbsorbCount(store: map<string, Message>, batch: seq<Message>)
    ensures Absorb(store, batch).1 == |Ids(batch) - store.Keys|
    decreases |batch|
  {
    if |batch| == 0 {
      IdsEmpty(batch);
    } else {
      var init := batch[..|batch| - 1];
      var c := batch[|batch| - 1];
      AbsorbCount(store, init);
      AbsorbKeys(store, init);
      var prev := Absorb(store, init);
      LastSplit(batch);
      IdsSnoc(init, c);
      assert c.id in prev.0 <==> c.id in store.Keys + Ids(init);
      NewIdsStep(store.Keys, Ids(init), c.id);
    }
  }

  lemma LastSplit<T>(s: seq<T>)
    requires |s| > 0
    ensures s == s[..|s| - 1] + [s[|s| - 1]]
  {
  }

  /** Storing a message under its own id keeps a map keyed by id. */
  lemma KeyedSnoc(m: map<string, Message>, c: Message)
    requires KeyedById(m)
    ensures KeyedById(m[c.id := c])
  {
  }

  /** Storing one more comment: it becomes the latest copy of its id and
      every other entry keeps its latest copy. */
  lemma StoreSnoc(store: map<string, Message>, init: seq<Message>, c: Message, m: map<string, Message>)
    requires Stored(store, init, m)
    ensures Stored(store, init + [c], m[c.id := c])
  {
    var b := init + [c];
    IdsSnoc(init, c);
    assert b[..|b| - 1] == init;
    var m' := m[c.id := c];
    assert m'.Keys == m.Keys + {c.id};
    assert m'.Keys == store.Keys + Ids(b);
    forall id | id in m'
      ensures m'[id] == if id in Ids(b) then LatestWith(b, id) else store[id]
    {
      if id != c.id && id in Ids(b) {
        assert LatestWith(b, id) == LatestWith(init, id);
      }
    }
  }

  /** Counting new ids one at a time: adding `x` to the seen ids grows the
      set of new ones by one exactly when `x` was seen neither before nor
      earlier in the batch. */
  lemma NewIdsStep(known: set<string>, seen: set<string>, x: string)
    ensures x in known + seen ==> (seen + {x}) - known == seen - known
    ensures x !in known + seen ==> |(seen + {x}) - known| == |seen - known| + 1
  {
    if x !in known + seen {
      assert (seen + {x}) - known == (seen - known) + {x};
    }
  }

  /** The map is unchanged by a batch, in its key set, exactly when the
      batch brought no new id. */
  lemma AbsorbNothingNew(store: map<string, Message>, batch: seq<Message>)
    ensures Absorb(store, batch).1 == 0 <==> Ids(batch) <= store.Keys
  {
    AbsorbCount(store, batch);
    CountZeroIffSubset(Ids(batch), store.Keys);
  }

  /** No element of `a` is missing from `b` exactly when `a` lies in `b`. */
  lemma CountZeroIffSubset<T>(a: set<T>, b: set<T>)
    ensures |a - b| == 0 <==> a <= b
  {
    if !(a <= b) {
      var x :| x in a && x !in b;
      assert {x} <= a - b;
    }
  }

  /** The server is honest about a finite history: every comment it returns
      for a watermark lies at or after it, no later than `maxTime`, and has
      an id from the finite `universe`. One sufficient condition for the
      loop to stop (`HonestRounds`), not a requirement of the model. */
  ghost predicate Honest(fetch: Fetch, universe: set<string>, maxTime: int) {
    forall w {:trigger HonestAnswer(w, fetch(w), universe, maxTime)} :: HonestAnswer(w, fetch(w), universe, maxTime)
  }

  /** The answer to the request at watermark `w` respects those bounds. */
  predicate HonestAnswer(w: int, answer: Result<seq<Message>, string>, universe: set<string>, maxTime: int) {
    answer.Ok? ==> Within(answer.value, w, maxTime, universe)
  }

  /** Every message of `s` lies between `lo` and `hi` and has an id from
      `universe`. */
  predicate Within(s: seq<Message>, lo: int, hi: int, universe: set<string>) {
    |s| == 0 || (lo <= s[0].playbackTime <= hi && s[0].id in universe && Within(s[1..], lo, hi, universe))
  }

  lemma {:induction false} WithinBounds(s: seq<Message>, lo: int, hi: int, universe: set<string>)
    requires Within(s, lo, hi, universe)
    ensures forall k :: 0 <= k < |s| ==> lo <= s[k].playbackTime <= hi
    ensures Ids(s) <= universe
  {
    if |s| > 0 {
      WithinBounds(s[1..], lo, hi, universe);
      assert s == [s[0]] + s[1..];
      IdsAppend([s[0]], s[1..]);
      assert Ids([s[0]]) == {s[0].id};
      forall k | 1 <= k < |s| ensures lo <= s[k].playbackTime <= hi {
        assert s[k] == s[1..][k - 1];
      }
    }
  }

  lemma {:induction false} WithinOfBounds(s: seq<Message>, lo: int, hi: int, universe: set<string>)
    requires forall k :: 0 <= k < |s| ==> lo <= s[k].playbackTime <= hi && s[k].id in universe
    ensures Within(s, lo, hi, universe)
  {
    if |s| > 0 {
      forall k | 0 <= k < |s[1..]|
        ensures lo <= s[1..][k].playbackTime <= hi && s[1..][k].id in universe
      {
        assert s[1..][k] == s[k + 1];
      }
      WithinOfBounds(s[1..], lo, hi, universe);
    }
  }

  /** The comments of every successful request along a trace of watermarks,
      in request order. */
  ghost function Received(fetch: Fetch, trace: seq<int>): seq<Message> {
    if |trace| == 0 then []
    else (if fetch(trace[0]).Ok? then fetch(trace[0]).value else []) + Received(fetch, trace[1..])
  }

  /** Watermark `w` led to watermark `w'`: the request at `w` returned a
      non-empty batch whose last comment is at playback time `w'`. */
  predicate Advanced(fetch: Fetch, w: int, w': int) {
    fetch(w).Ok? && |fetch(w).value| > 0 && fetch(w).value[|fetch(w).value| - 1].playbackTime == w'
  }

  /** Each watermark of `trace` led to the next one. */
  predicate Chained(fetch: Fetch, trace: seq<int>) {
    forall i :: 0 <= i < |trace| - 1 ==> Advanced(fetch, trace[i], trace[i + 1])
  }

  lemma ChainedCons(fetch: Fetch, w: int, trace: seq<int>)
    requires |trace| > 0 && Advanced(fetch, w, trace[0]) && Chained(fetch, trace)
    ensures Chained(fetch, [w] + trace)
    ensures ([w] + trace)[|trace|] == trace[|trace| - 1]
  {
    var t := [w] + trace;
    forall i | 0 <= i < |t| - 1 ensures Advanced(fetch, t[i], t[i + 1]) {
      if i > 0 {
        assert t[i] == trace[i - 1] && t[i + 1] == trace[i];
      }
    }
  }

  /** The outcome of the gathering loop and the watermarks it requested. */
  datatype Gathering = Gathering(result: Result<map<string, Message>, string>, trace: seq<int>)

  /** The watermark a round that goes on hands over: the last playback
      time of its batch (comments.go:113-114). */
  function NextMark(fetch: Fetch, w: int): int
    requires fetch(w).Ok? && |fetch(w).value| > 0
  {
    fetch(w).value[|fetch(w).value| - 1].playbackTime
  }

  /** The round at watermark `w`, with the ids in `seen` already stored,
      ends the loop: the request failed, the batch was empty, or it neither
      moves the watermark nor brings a new id (comments.go:92, 97 and 117).
      Whether the loop goes on depends on the stored ids only, not on the
      stored copies. */
  predicate RoundStops(fetch: Fetch, seen: set<string>, w: int) {
    fetch(w).Err? || |fetch(w).value| == 0 ||
    (NextMark(fetch, w) == w && Ids(fetch(w).value) <= seen)
  }

  /** The loop from watermark `w`, with the ids in `seen` stored, ends
      within `n` rounds. The code's loop ends exactly when this holds for
      some `n`. */
  ghost predicate StopsWithin(fetch: Fetch, seen: set<string>, w: int, n: nat)
    decreases n
  {
    n >= 1 &&
    (RoundStops(fetch, seen, w) ||
     StopsWithin(fetch, seen + Ids(fetch(w).value), NextMark(fetch, w), n - 1))
  }

  /** The gathering loop (comments.go:88-122) from watermark `w` with the
      comments stored so far. The ghost `rounds` is a number of rounds
      within which the loop ends; it admits every server on which the code
      terminates, and `GatherAnyRounds` shows the result does not depend on
      it. */
  function Gather(fetch: Fetch, store: map<string, Message>, w: int, ghost rounds: nat): (g: Gathering)
    requires StopsWithin(fetch, store.Keys, w, rounds)
    ensures 1 <= |g.trace| <= rounds && g.trace[0] == w
    decreases rounds
  {
    match fetch(w)
    case Err(e) => Gathering(Err("GetAllComments: " + e), [w])
    case Ok(batch) =>
      if |batch| == 0 then Gathering(Ok(store), [w])
      else
        var absorbed := Absorb(store, batch);
        var nextStart := batch[|batch| - 1].playbackTime;
        if nextStart == w && absorbed.1 == 0 then Gathering(Ok(absorbed.0), [w])
        else
          AbsorbNothingNew(store, batch);
          AbsorbKeys(store, batch);
          var rest := Gather(fetch, absorbed.0, nextStart, rounds - 1);
          Gathering(rest.result, [w] + rest.trace)
  }

  /** The same gathering whatever bound on its rounds is named. */
  lemma {:induction false} GatherAnyRounds(fetch: Fetch, store: map<string, Message>, w: int, n1: nat, n2: nat)
    requires StopsWithin(fetch, store.Keys, w, n1) && StopsWithin(fetch, store.Keys, w, n2)
    ensures Gather(fetch, store, w, n1) == Gather(fetch, store, w, n2)
    decreases n1
  {
    if fetch(w).Ok? && |fetch(w).value| > 0 {
      var batch := fetch(w).value;
      AbsorbNothingNew(store, batch);
      AbsorbKeys(store, batch);
      if !RoundStops(fetch, store.Keys, w) {
        GatherAnyRounds(fetch, Absorb(store, batch).0, NextMark(fetch, w), n1 - 1, n2 - 1);
      }
    }
  }

  /** An honest server lets the loop end: each round that goes on moves the
      watermark forward within `maxTime` or stores a new id of the finite
      universe. The result is a round bound for `Gather`. */
  ghost function HonestRounds(fetch: Fetch, seen: set<string>, w: int,
                              universe: set<string>, maxTime: int): (n: nat)
    requires Honest(fetch, universe, maxTime) && seen <= universe
    ensures StopsWithin(fetch, seen, w, n)
    decreases if w <= maxTime then maxTime - w else 0, |universe - seen|
  {
    if RoundStops(fetch, seen, w) then 1
    else
      GatherProgress(fetch, seen, w, universe, maxTime);
      1 + HonestRounds(fetch, seen + Ids(fetch(w).value), NextMark(fetch, w), universe, maxTime)
  }

  /** Against an honest server, a round that does not stop keeps the stored
      ids within the universe and moves the watermark forward or stores a
      new id. */
  lemma GatherProgress(fetch: Fetch, seen: set<string>, w: int,
                       universe: set<string>, maxTime: int)
    requires Honest(fetch, universe, maxTime) && seen <= universe
    requires fetch(w).Ok? && |fetch(w).value| > 0
    ensures var next := seen + Ids(fetch(w).value);
      && next <= universe
      && w <= NextMark(fetch, w) <= maxTime
      && |universe - next| <= |universe - seen|
      && (!(Ids(fetch(w).value) <= seen) ==> |universe - next| < |universe - seen|)
  {
    var batch := fetch(w).value;
    var next := seen + Ids(batch);
    assert HonestAnswer(w, fetch(w), universe, maxTime);
    WithinBounds(batch, w, maxTime, universe);
    CountZeroIffSubset(Ids(batch), seen);
    ProgressMeasure(universe, seen, Ids(batch), next, |Ids(batch) - seen|);
  }

  /** What a gathering `g` from `store` amounts to: the watermarks it
      requested, each reached from the one before; on a request error only
      that error, prefixed as in comments.go:92; otherwise every comment
      received, each id with its latest copy. */
  ghost predicate Outcome(fetch: Fetch, store: map<string, Message>, g: Gathering) {
    && |g.trace| >= 1
    && Chained(fetch, g.trace)
    && var last := g.trace[|g.trace| - 1];
    && (g.result.Err? <==> fetch(last).Err?)
    && (g.result.Err? ==> g.result.error == "GetAllComments: " + fetch(last).error)
    && (g.result.Ok? ==> Stored(store, Received(fetch, g.trace), g.result.value))
    && (g.result.Ok? && KeyedById(store) ==> KeyedById(g.result.value))
  }

  /** The gathering loop does what `Outcome` says. */
  lemma {:induction false} GatherSpec(fetch: Fetch, store: map<string, Message>, w: int, rounds: nat)
    requires StopsWithin(fetch, store.Keys, w, rounds)
    ensures Outcome(fetch, store, Gather(fetch, store, w, rounds))
    decreases rounds
  {
    if RoundStops(fetch, store.Keys, w) {
      GatherFinal(fetch, store, w, rounds);
    } else {
      var batch := fetch(w).value;
      var next := Absorb(store, batch).0;
      var nextStart := NextMark(fetch, w);
      GatherUnfold(fetch, store, w, rounds);
      GatherSpec(fetch, next, nextStart, rounds - 1);
      GatherStep(fetch, store, w, rounds - 1);
    }
  }

  /** A round that goes on: what the loop from the next watermark amounts
      to, with this round's batch in front, is what the whole loop amounts
      to. */
  lemma GatherStep(fetch: Fetch, store: map<string, Message>, w: int, rounds: nat)
    requires fetch(w).Ok? && |fetch(w).value| > 0
    requires var next := Absorb(store, fetch(w).value).0;
      && StopsWithin(fetch, next.Keys, NextMark(fetch, w), rounds)
      && Outcome(fetch, next, Gather(fetch, next, NextMark(fetch, w), rounds))
    ensures var rest := Gather(fetch, Absorb(store, fetch(w).value).0, NextMark(fetch, w), rounds);
      Outcome(fetch, store, Gathering(rest.result, [w] + rest.trace))
  {
    var batch := fetch(w).value;
    AbsorbStores(store, batch);
    OutcomeCons(fetch, store, w, batch, Absorb(store, batch).0,
                Gather(fetch, Absorb(store, batch).0, NextMark(fetch, w), rounds));
  }

  /** A round that stops: on an error, an empty batch, or a batch that
      neither moves the watermark nor brings a new id. */
  lemma GatherFinal(fetch: Fetch, store: map<string, Message>, w: int, rounds: nat)
    requires StopsWithin(fetch, store.Keys, w, rounds) && RoundStops(fetch, store.Keys, w)
    ensures Outcome(fetch, store, Gather(fetch, store, w, rounds))
  {
    assert [w][1..] == [];
    if fetch(w).Ok? {
      if |fetch(w).value| == 0 {
        assert Received(fetch, [w]) == [];
      } else {
        AbsorbNothingNew(store, fetch(w).value);
        AbsorbStores(store, fetch(w).value);
        assert Received(fetch, [w]) == fetch(w).value;
      }
    }
  }

  /** A round that does not stop hands over to the loop from the next
      watermark with the updated map. */
  lemma GatherUnfold(fetch: Fetch, store: map<string, Message>, w: int, rounds: nat)
    requires StopsWithin(fetch, store.Keys, w, rounds) && !RoundStops(fetch, store.Keys, w)
    ensures var next := Absorb(store, fetch(w).value).0;
      var nextStart := NextMark(fetch, w);
      && StopsWithin(fetch, next.Keys, nextStart, rounds - 1)
      && var rest := Gather(fetch, next, nextStart, rounds - 1);
      Gather(fetch, store, w, rounds) == Gathering(rest.result, [w] + rest.trace)
  {
    AbsorbNothingNew(store, fetch(w).value);
    AbsorbKeys(store, fetch(w).value);
  }

  /** One round in front of a gathering from the next watermark. */
  lemma OutcomeCons(fetch: Fetch, store: map<string, Message>, w: int, batch: seq<Message>,
                    next: map<string, Message>, rest: Gathering)
    requires fetch(w) == Ok(batch) && |batch| > 0
    requires Stored(store, batch, next) && (KeyedById(store) ==> KeyedById(next))
    requires Outcome(fetch, next, rest) && rest.trace[0] == batch[|batch| - 1].playbackTime
    ensures Outcome(fetch, store, Gathering(rest.result, [w] + rest.trace))
  {
    ReceivedCons(fetch, w, rest.trace);
    ChainedCons(fetch, w, rest.trace);
    if rest.result.Ok? {
      StoredAppend(store, batch, next, Received(fetch, rest.trace), rest.result.value);
    }
  }

  /** Storing a batch never grows the set of unseen ids, and shrinks it
      when the batch brought a new id. */
  lemma ProgressMeasure(universe: set<string>, before: set<string>, added: set<string>,
                        after: set<string>, newCount: nat)
    requires after == before + added && after <= universe && newCount == |added - before|
    ensures |universe - after| <= |universe - before|
    ensures newCount > 0 ==> |universe - after| < |universe - before|
  {
    assert after - before == added - before;
    assert universe - before == (universe - after) + (after - before);
  }

  lemma ReceivedCons(fetch: Fetch, w: int, trace: seq<int>)
    ensures Received(fetch, [w] + trace)
      == (if fetch(w).Ok? then fetch(w).value else []) + Received(fetch, trace)
  {
    assert ([w] + trace)[1..] == trace;
  }

  /** Storing `a` and then `b` stores what storing `a + b` at once would. */
  lemma StoredAppend(store: map<string, Message>, a: seq<Message>, mid: map<string, Message>,
                     b: seq<Message>, m: map<string, Message>)
    requires Stored(store, a, mid) && Stored(mid, b, m)
    ensures Stored(store, a + b, m)
  {
    IdsAppend(a, b);
    forall id | id in m
      ensures m[id] == if id in Ids(a + b) then LatestWith(a + b, id) else store[id]
    {
      if id in Ids(a + b) {
        LatestWithAppend(a, b, id);
      }
    }
  }

  /** The loop stops after a non-empty batch exactly when the watermark
      would not move and the batch brought no new id (comments.go:117). */
  lemma GatherStopsWhenStuck(fetch: Fetch, store: map<string, Message>, w: int, rounds: nat)
    requires StopsWithin(fetch, store.Keys, w, rounds)
    requires fetch(w).Ok? && |fetch(w).value| > 0
    ensures var batch := fetch(w).value;
      (|Gather(fetch, store, w, rounds).trace| == 1
       <==> batch[|batch| - 1].playbackTime == w && Ids(batch) <= store.Keys)
  {
    AbsorbNothingNew(store, fetch(w).value);
  }

  /** An empty batch ends the loop and returns what was stored. */
  lemma GatherStopsOnEmpty(fetch: Fetch, store: map<string, Message>, w: int, rounds: nat)
    requires StopsWithin(fetch, store.Keys, w, rounds)
    requires fetch(w) == Ok([])
    ensures Gather(fetch, store, w, rounds) == Gathering(Ok(store), [w])
  {
  }

  /** A server that answers every request with the same comment at
      playback time 5. */
  const Echo5: Fetch := (w: int) => Ok([Message("a", 5, "g", "hi", "n", "s", false, None, "", "", "")])

  /** Against `Echo5` the loop stores the comment, moves the watermark to 5,
      sees nothing new there and stops after two rounds, although the
      server answers the watermark 6 with a comment before it. */
  lemma EchoStopsAfterTwoRounds()
    ensures StopsWithin(Echo5, NoComments.Keys, 0, 2)
    ensures Gather(Echo5, NoComments, 0, 2).trace == [0, 5]
    ensures forall universe, maxTime :: !Honest(Echo5, universe, maxTime)
  {
    var c := Echo5(0).value[0];
    assert Echo5(0).value == [c];
    assert Ids([c]) == {"a"} by {
      assert c in [c];
    }
    assert NextMark(Echo5, 0) == 5 && NextMark(Echo5, 5) == 5;
    assert NoComments.Keys + {"a"} == {"a"};
    assert RoundStops(Echo5, {"a"}, 5);
    forall universe, maxTime ensures !Honest(Echo5, universe, maxTime) {
      var w := if maxTime < 6 then 6 else maxTime + 1;
      assert !HonestAnswer(w, Echo5(w), universe, maxTime);
    }
  }

  // ---------------------------------------------------------------------------
  // Flattening and sorting
  // ---------------------------------------------------------------------------

  /** No two messages share an id. */
  predicate DistinctIds(s: seq<Message>) {
    forall i, j :: 0 <= i < j < |s| ==> s[i].id != s[j].id
  }

  predicate SortedByTime(s: seq<Message>) {
    forall i, j :: 0 <= i < j < |s| ==> s[i].playbackTime <= s[j].playbackTime
  }

  /** `s` lists the values of `store` once each. */
  predicate Lists(s: seq<Message>, store: map<string, Message>) {
    && DistinctIds(s)
    && Ids(s) == store.Keys
    && forall i :: 0 <= i < |s| ==> s[i].id in store && store[s[i].id] == s[i]
  }

  /** Places `x` before the first message with a later playback time. */
  function Insert(x: Message, s: seq<Message>): (r: seq<Message>)
    requires SortedByTime(s)
    ensures SortedByTime(r)
    ensures multiset(r) == multiset(s) + multiset{x}
  {
    if |s| == 0 || x.playbackTime <= s[0].playbackTime then
      [x] + s
    else
      SortedTail(s);
      var tail := Insert(x, s[1..]);
      LowerBound(s[0].playbackTime, s[1..], x, tail);
      SortedCons(s[0], tail);
      assert s == [s[0]] + s[1..];
      [s[0]] + tail
  }

  /** The tail of a sorted list is sorted and no earlier than its head. */
  lemma SortedTail(s: seq<Message>)
    requires |s| > 0 && SortedByTime(s)
    ensures SortedByTime(s[1..])
    ensures forall k :: 0 <= k < |s| - 1 ==> s[0].playbackTime <= s[1..][k].playbackTime
  {
  }

  /** A head no later than any message of a sorted tail keeps the list sorted. */
  lemma SortedCons(h: Message, t: seq<Message>)
    requires SortedByTime(t)
    requires forall k :: 0 <= k < |t| ==> h.playbackTime <= t[k].playbackTime
    ensures SortedByTime([h] + t)
  {
    forall i, j | 0 <= i < j < |[h] + t|
      ensures ([h] + t)[i].playbackTime <= ([h] + t)[j].playbackTime
    {
      assert ([h] + t)[j] == t[j - 1];
      if i > 0 {
        assert ([h] + t)[i] == t[i - 1];
      }
    }
  }

  /** A permutation of `s + [x]` is no earlier than `lo` when `s` and `x` are not. */
  lemma LowerBound(lo: int, s: seq<Message>, x: Message, t: seq<Message>)
    requires multiset(t) == multiset(s) + multiset{x}
    requires lo <= x.playbackTime && forall k :: 0 <= k < |s| ==> lo <= s[k].playbackTime
    ensures forall k :: 0 <= k < |t| ==> lo <= t[k].playbackTime
  {
    forall k | 0 <= k < |t| ensures lo <= t[k].playbackTime {
      assert t[k] in multiset(t);
      if t[k] != x {
        assert t[k] in multiset(s);
        var j :| 0 <= j < |s| && s[j] == t[k];
      }
    }
  }

  /** Messages are the same up to order, so their ids are the same. */
  lemma IdsOfPermutation(a: seq<Message>, b: seq<Message>)
    requires multiset(a) == multiset(b)
    ensures Ids(a) == Ids(b)
  {
    forall id | id in Ids(a) ensures id in Ids(b) {
      var m :| m in a && m.id == id;
      assert m in multiset(b);
    }
    forall id | id in Ids(b) ensures id in Ids(a) {
      var m :| m in b && m.id == id;
      assert m in multiset(a);
    }
  }

  /** Inserting a message with a fresh id keeps ids distinct. */
  lemma {:induction false} InsertDistinct(x: Message, s: seq<Message>)
    requires SortedByTime(s) && DistinctIds(s) && x.id !in Ids(s)
    ensures DistinctIds(Insert(x, s))
  {
    if |s| == 0 || x.playbackTime <= s[0].playbackTime {
      ConsDistinct(x, s);
    } else {
      var t := s[1..];
      TailDistinct(s);
      InsertDistinct(x, t);
      var tail := Insert(x, t);
      IdsOfPermutation(tail, t + [x]);
      IdsSnoc(t, x);
      assert s[0] in s;
      ConsDistinct(s[0], tail);
    }
  }

  lemma ConsDistinct(h: Message, t: seq<Message>)
    requires DistinctIds(t) && h.id !in Ids(t)
    ensures DistinctIds([h] + t)
  {
    var r := [h] + t;
    forall i, j | 0 <= i < j < |r| ensures r[i].id != r[j].id {
      assert r[j] == t[j - 1] && r[j] in t;
      if i > 0 {
        assert r[i] == t[i - 1];
      }
    }
  }

  /** The tail of a list with distinct ids has distinct ids, none of them the head's. */
  lemma TailDistinct(s: seq<Message>)
    requires |s| > 0 && DistinctIds(s)
    ensures DistinctIds(s[1..]) && Ids(s[1..]) <= Ids(s) && s[0].id !in Ids(s[1..])
  {
    var t := s[1..];
    assert s == [s[0]] + t;
    IdsAppend([s[0]], t);
    HeadNotInTail(s);
  }

  lemma HeadNotInTail(s: seq<Message>)
    requires |s| > 0 && DistinctIds(s)
    ensures s[0].id !in Ids(s[1..])
  {
  }

  /** Insertion sort by playback time: one admissible result of Go's
      `sort.Slice`, which leaves the order of equal times unspecified. */
  function SortByTime(s: seq<Message>): (r: seq<Message>)
    ensures SortedByTime(r)
    ensures multiset(r) == multiset(s)
  {
    if |s| == 0 then []
    else
      assert s == [s[0]] + s[1..];
      Insert(s[0], SortByTime(s[1..]))
  }

  /** Sorting keeps ids distinct. */
  lemma {:induction false} SortDistinct(s: seq<Message>)
    requires DistinctIds(s)
    ensures DistinctIds(SortByTime(s))
  {
    if |s| > 0 {
      TailDistinct(s);
      SortDistinct(s[1..]);
      IdsOfPermutation(SortByTime(s[1..]), s[1..]);
      InsertDistinct(s[0], SortByTime(s[1..]));
    }
  }

  /** Sorting keeps a listing of the map a listing of the map. */
  lemma SortKeepsListing(s: seq<Message>, store: map<string, Message>)
    requires Lists(s, store)
    ensures Lists(SortByTime(s), store)
  {
    var r := SortByTime(s);
    SortDistinct(s);
    IdsOfPermutation(r, s);
    forall i | 0 <= i < |r| ensures r[i].id in store && store[r[i].id] == r[i] {
      assert r[i] in multiset(s);
      var j :| 0 <= j < |s| && s[j] == r[i];
    }
  }

  /** `s` lists the values of `store` except those under the keys `left`. */
  predicate ListsAllBut(s: seq<Message>, store: map<string, Message>, left: set<string>) {
    && left <= store.Keys
    && Ids(s) == store.Keys - left
    && DistinctIds(s)
    && forall i :: 0 <= i < |s| ==> s[i].id in store && store[s[i].id] == s[i]
  }

  /** Appending the value of one more key keeps the partial listing. */
  lemma ListsAllButStep(s: seq<Message>, store: map<string, Message>, left: set<string>, id: string)
    requires KeyedById(store) && ListsAllBut(s, store, left) && id in left
    ensures ListsAllBut(s + [store[id]], store, left - {id})
  {
    var m := store[id];
    IdsSnoc(s, m);
    var r := s + [m];
    forall i, j | 0 <= i < j < |r| ensures r[i].id != r[j].id {
      assert r[i] == s[i] && s[i] in s;
      if j < |s| {
        assert r[j] == s[j];
      }
    }
  }

  /** Lists the map's values in some order (Go's map iteration). */
  method ValuesOf(store: map<string, Message>) returns (s: seq<Message>)
    requires KeyedById(store)
    ensures Lists(s, store)
  {
    s := [];
    var left := store.Keys;
    while left != {}
      invariant ListsAllBut(s, store, left)
      decreases |left|
    {
      var id :| id in left;
      ListsAllButStep(s, store, left, id);
      s := s + [store[id]];
      left := left - {id};
    }
  }

  /** The empty map the loop starts from. */
  const NoComments: map<string, Message> := map[]

  /** `GetAllComments`: gather from watermark 0 into an empty map; on any
      request error return only the error; otherwise list every stored
      comment once, sorted by playback time. */
  method GetAllComments(fetch: Fetch, ghost rounds: nat)
    returns (r: Result<seq<Message>, string>)
    requires StopsWithin(fetch, NoComments.Keys, 0, rounds)
    ensures var g := Gather(fetch, NoComments, 0, rounds);
      && g.trace[0] == 0
      && (r.Err? <==> g.result.Err?)
      && (r.Err? ==> r == Err(g.result.error))
      && (r.Ok? ==> Lists(r.value, g.result.value) && SortedByTime(r.value)
                    && Ids(r.value) == Ids(Received(fetch, g.trace)))
  {
    var g := Gather(fetch, NoComments, 0, rounds);
    GatherSpec(fetch, NoComments, 0, rounds);
    if g.result.Err? {
      return Err(g.result.error);
    }
    var values := ValuesOf(g.result.value);
    SortKeepsListing(values, g.result.value);
    r := Ok(SortByTime(values));
  }
}
