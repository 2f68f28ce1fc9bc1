/** The meaning of the registry's LRU, stated over histories of calls.

    A `History` pairs the registry with bookkeeping the registry itself does
    not keep: a clock that ticks once per call, the time each token was last
    used (added, or found by `GetOperation`), and the set of tokens that were
    added as pruneable. Replaying any sequence of calls from the empty
    registry keeps the LRU equal to the live pruneable tokens ordered by last
    use, so `GetOldestPruneableOperation` yields the least recently used one. */
module OperationHistory {
  import opened Wrappers
  import opened Seqs
  import opened Operations
  import opened OperationProps

  /** One call on the registry. */
  datatype Event =
    | Add(handle: uint64, keyId: uint64, purpose: KeyPurpose, device: Device,
          appToken: AppToken, characteristics: KeyCharacteristics, pruneable: bool)
    | Get(token: Token)
    | Remove(token: Token)
    | SetAuth(token: Token, authToken: HardwareAuthToken)

  datatype History = History(m: OperationMap, clock: nat, lastUse: map<Token, nat>, pruneable: set<Token>)

  /** The registry is valid; live tokens were used before now; the LRU lists
      exactly the live tokens added as pruneable, ordered by last use. */
  predicate Consistent(h: History) {
    && Valid(h.m)
    && (forall t :: t in h.m.ops ==> t in h.lastUse && h.lastUse[t] < h.clock)
    && (forall t :: t in h.pruneable ==> t.id < h.m.nextId)
    && IncreasingBy(h.m.lru, h.lastUse)
    && (forall t :: t in h.m.ops ==> (t in h.m.lru <==> t in h.pruneable))
  }

  /** Performs one call and updates the bookkeeping. */
  function Apply(h: History, e: Event): (r: History)
    requires Valid(h.m)
  {
    match e
    case Add(handle, keyId, purpose, device, appToken, characteristics, pruneable) =>
      var (t, m') := AddOperation(h.m, handle, keyId, purpose, device, appToken, characteristics, pruneable);
      History(m', h.clock + 1, h.lastUse[t := h.clock], if pruneable then h.pruneable + {t} else h.pruneable)
    case Get(t) =>
      History(GetOperation(h.m, t).1, h.clock + 1,
              if t in h.m.ops then h.lastUse[t := h.clock] else h.lastUse, h.pruneable)
    case Remove(t) =>
      History(RemoveOperation(h.m, t).1, h.clock + 1, h.lastUse, h.pruneable)
    case SetAuth(t, a) =>
      History(SetOperationAuthToken(h.m, t, a).1, h.clock + 1, h.lastUse, h.pruneable)
  }

  /** Re-keying an element that is not listed leaves the order alone. */
  lemma IncreasingRekey(s: seq<Token>, key: map<Token, nat>, t: Token, v: nat)
    requires IncreasingBy(s, key) && t !in s
    ensures IncreasingBy(s, key[t := v])
  {
    forall i | 0 <= i < |s| ensures s[i] != t {
      assert s[i] in s;
    }
  }

  /** Appending an element keyed above everything listed keeps the order. */
  lemma IncreasingSnoc(s: seq<Token>, key: map<Token, nat>, x: Token)
    requires IncreasingBy(s, key) && x in key
    requires forall i :: 0 <= i < |s| ==> key[s[i]] < key[x]
    ensures IncreasingBy(s + [x], key)
  {
    var t := s + [x];
    forall i, j | 0 <= i < j < |t| ensures key[t[i]] < key[t[j]] {
      assert t[i] == s[i];
      if j < |s| {
        assert t[j] == s[j];
      }
    }
    forall i | 0 <= i < |t| ensures t[i] in key {
      if i < |s| {
        assert t[i] == s[i];
      }
    }
  }

  lemma AddKeepsConsistent(h: History, e: Event)
    requires Consistent(h) && e.Add?
    ensures Consistent(Apply(h, e))
  {
    var (t, m') := AddOperation(h.m, e.handle, e.keyId, e.purpose, e.device, e.appToken, e.characteristics, e.pruneable);
    var h' := Apply(h, e);
    assert t !in h.pruneable;
    assert t !in h.m.lru;
    IncreasingRekey(h.m.lru, h.lastUse, t, h.clock);
    if e.pruneable {
      IncreasingSnoc(h.m.lru, h.lastUse[t := h.clock], t);
    }
  }

  lemma GetKeepsConsistent(h: History, e: Event)
    requires Consistent(h) && e.Get?
    ensures Consistent(Apply(h, e))
  {
    var t := e.token;
    GetOperationPreservesValid(h.m, t);
    if t in h.m.ops && t in h.m.lru {
      GetListedKeepsConsistent(h, t);
    } else if t in h.m.ops {
      IncreasingRekey(h.m.lru, h.lastUse, t, h.clock);
    }
  }

  /** Looking up a live pruneable token moves it, with a fresh last-use
      time, to the end of the LRU. */
  lemma GetListedKeepsConsistent(h: History, t: Token)
    requires Consistent(h) && t in h.m.ops && t in h.m.lru
    ensures Consistent(Apply(h, Get(t)))
  {
    var h' := Apply(h, Get(t));
    GetOperationPreservesValid(h.m, t);
    GetListedKeepsOrder(h, t);
    GetListedKeepsMembership(h, t);
    assert forall u :: u in h'.m.ops ==> u in h'.lastUse && h'.lastUse[u] < h'.clock;
  }

  lemma GetListedKeepsOrder(h: History, t: Token)
    requires Consistent(h) && t in h.m.ops && t in h.m.lru
    ensures IncreasingBy(Apply(h, Get(t)).m.lru, Apply(h, Get(t)).lastUse)
  {
    var lru := h.m.lru;
    assert Apply(h, Get(t)).m.lru == RemoveFirst(lru, t) + [t];
    assert Apply(h, Get(t)).lastUse == h.lastUse[t := h.clock];
    assert NoDup(lru) && IncreasingBy(lru, h.lastUse);
    forall i | 0 <= i < |lru| ensures h.lastUse[lru[i]] < h.clock {
      assert lru[i] in h.m.ops;
    }
    MoveToBackKeepsOrder(lru, t, h.lastUse, h.clock);
  }

  lemma GetListedKeepsMembership(h: History, t: Token)
    requires Consistent(h) && t in h.m.ops && t in h.m.lru
    ensures var h' := Apply(h, Get(t));
      forall u :: u in h'.m.ops ==> (u in h'.m.lru <==> u in h'.pruneable)
  {
    var h' := Apply(h, Get(t));
    var rest := RemoveFirst(h.m.lru, t);
    assert h'.m.lru == rest + [t];
    RemoveFirstDistinct(h.m.lru, t);
    forall u | u in h'.m.ops ensures u in h'.m.lru <==> u in h'.pruneable {
      assert u in h'.m.lru <==> u == t || u in rest;
    }
  }

  lemma RemoveKeepsConsistent(h: History, e: Event)
    requires Consistent(h) && e.Remove?
    ensures Consistent(Apply(h, e))
  {
    var t := e.token;
    RemoveOperationErasesEverywhere(h.m, t);
    if t in h.m.ops {
      RemoveFirstKeepsOrder(h.m.lru, t, h.lastUse);
      RemoveFirstDistinct(h.m.lru, t);
    }
  }

  lemma SetAuthKeepsConsistent(h: History, e: Event)
    requires Consistent(h) && e.SetAuth?
    ensures Consistent(Apply(h, e))
  {
    SetOperationAuthTokenPreservesValid(h.m, e.token, e.authToken);
  }

  /** Every call keeps the history consistent. */
  lemma ApplyKeepsConsistent(h: History, e: Event)
    requires Consistent(h)
    ensures Consistent(Apply(h, e))
  {
    match e
    case Add(_, _, _, _, _, _, _) => AddKeepsConsistent(h, e);
    case Get(_) => GetKeepsConsistent(h, e);
    case Remove(_) => RemoveKeepsConsistent(h, e);
    case SetAuth(_, _) => SetAuthKeepsConsistent(h, e);
  }

  /** Replays calls, in order, on a freshly constructed registry. */
  function Replay(events: seq<Event>): (h: History)
    ensures Consistent(h)
    ensures h.clock == |events|
  {
    if |events| == 0 then History(Create(), 0, map[], {})
    else
      var before := Replay(events[..|events| - 1]);
      ApplyKeepsConsistent(before, events[|events| - 1]);
      Apply(before, events[|events| - 1])
  }

  /** After any history of calls, the oldest pruneable operation is absent
      exactly when no live operation was added as pruneable, and otherwise
      it is the live pruneable operation used least recently. */
  lemma OldestIsLeastRecentlyUsed(events: seq<Event>)
    ensures var h := Replay(events);
      GetOldestPruneableOperation(h.m).None? <==> (forall t :: t in h.m.ops ==> t !in h.pruneable)
    ensures var h := Replay(events);
      GetOldestPruneableOperation(h.m).Some? ==>
        var oldest := GetOldestPruneableOperation(h.m).value;
        && oldest in h.m.ops && oldest in h.pruneable
        && forall u :: u in h.m.ops && u in h.pruneable ==> h.lastUse[oldest] <= h.lastUse[u]
  {
    var h := Replay(events);
    if |h.m.lru| > 0 {
      var oldest := h.m.lru[0];
      forall u | u in h.m.ops && u in h.pruneable ensures h.lastUse[oldest] <= h.lastUse[u] {
        var k :| 0 <= k < |h.m.lru| && h.m.lru[k] == u;
      }
    } else {
      forall t | t in h.m.ops ensures t !in h.pruneable {
        assert t !in h.m.lru;
      }
    }
  }

  /** Replaying one more call applies it to the replayed history. */
  lemma ReplaySnoc(events: seq<Event>, e: Event)
    ensures Replay(events + [e]) == Apply(Replay(events), e)
  {
    var es := events + [e];
    assert es[..|es| - 1] == events && es[|es| - 1] == e;
  }

  /** A lookup of a live pruneable token puts it last in the LRU, and only
      a lone token can then be first as well. */
  lemma GetMovesToBack(h: History, t: Token)
    requires Consistent(h) && t in h.m.ops && t in h.pruneable
    ensures var lru := Apply(h, Get(t)).m.lru;
      && |lru| > 0 && lru[|lru| - 1] == t
      && (|lru| > 1 ==> lru[0] != t)
  {
    var h' := Apply(h, Get(t));
    assert t in h.m.lru;
    assert h'.m.lru == UpdateLru(h.m.lru, t);
    GetOperationPreservesValid(h.m, t);
    assert NoDup(h'.m.lru);
  }

  /** Looking up a live pruneable operation makes it the most recently used:
      it is no longer the oldest unless it is the only pruneable one. */
  lemma TouchMakesMostRecent(events: seq<Event>, t: Token)
    requires var h := Replay(events); t in h.m.ops && t in h.pruneable
    ensures var h' := Replay(events + [Get(t)]);
      && |h'.m.lru| > 0 && h'.m.lru[|h'.m.lru| - 1] == t
      && (|h'.m.lru| > 1 ==> GetOldestPruneableOperation(h'.m) != Some(t))
  {
    ReplaySnoc(events, Get(t));
    GetMovesToBack(Replay(events), t);
  }
}
