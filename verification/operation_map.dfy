/** The keystore operation registry (`OperationMap`): translates in-flight
    keymaster operations to opaque tokens handed to applications, keeps an LRU
    of the operations that may be pruned, and indexes operations by the
    client that started them so that a dying client's operations can be found.

    The registry is a value: every mutating operation returns the new
    registry. Binder objects are modelled by identifiers; allocating a new
    token (`new BBinder()`) is modelled by a counter that only grows. */
module Operations {
  import opened Wrappers
  import opened Seqs

  type uint8 = x: int | 0 <= x < 0x100
  type uint64 = x: int | 0 <= x < 0x1_0000_0000_0000_0000

  /** The opaque token returned to the application for one operation. */
  datatype Token = Token(id: nat)

  /** The binder of the client application that started an operation. */
  datatype AppToken = AppToken(id: nat)

  /** The keymaster device that runs an operation; opaque here. */
  datatype Device = Device(id: nat)

  datatype KeyPurpose = Encrypt | Decrypt | Sign | Verify | WrapKey

  /** Key characteristics handed over at operation start; opaque here. */
  datatype KeyCharacteristics = KeyCharacteristics(softwareEnforced: seq<nat>, hardwareEnforced: seq<nat>)

  /** A hardware auth token. Only its MAC matters to the registry: an empty
      MAC means "no auth token attached". The remaining fields are opaque. */
  datatype HardwareAuthToken = HardwareAuthToken(fields: seq<uint64>, mac: seq<uint8>)

  /** The default-constructed auth token a new operation starts with. */
  const NoAuthToken := HardwareAuthToken([], [])

  /** One in-flight operation. */
  datatype Operation = Operation(
    handle: uint64,
    keyId: uint64,
    purpose: KeyPurpose,
    device: Device,
    characteristics: KeyCharacteristics,
    appToken: AppToken,
    authToken: HardwareAuthToken)
  {
    predicate HasAuthToken() {
      |authToken.mac| != 0
    }
  }

  /** The registry state: `ops` is `mMap`, `lru` is `mLru` (oldest first),
      `clients` is `mAppTokenMap`, and `nextId` stands for the allocator of
      fresh binder tokens. */
  datatype OperationMap = OperationMap(
    ops: map<Token, Operation>,
    lru: seq<Token>,
    clients: map<AppToken, seq<Token>>,
    nextId: nat)

  /** Every live token came from the allocator, so a newly allocated token
      is never live. */
  predicate TokensAllocated(m: OperationMap) {
    forall t :: t in m.ops ==> t.id < m.nextId
  }

  /** The LRU lists live tokens only, each at most once. */
  predicate LruWellFormed(m: OperationMap) {
    && NoDup(m.lru)
    && forall i :: 0 <= i < |m.lru| ==> m.lru[i] in m.ops
  }

  /** Every client entry is a non-empty, duplicate-free list of live
      operations started by that client. */
  predicate ClientIndexSound(m: OperationMap) {
    forall a :: a in m.clients ==> ClientEntrySound(m, a)
  }

  /** The list of client `a` is non-empty, duplicate-free, and holds live
      operations started by `a`. */
  predicate ClientEntrySound(m: OperationMap, a: AppToken)
    requires a in m.clients
  {
    && |m.clients[a]| > 0
    && NoDup(m.clients[a])
    && forall i :: 0 <= i < |m.clients[a]| ==>
         m.clients[a][i] in m.ops && m.ops[m.clients[a][i]].appToken == a
  }

  /** Every live operation is listed under its own client. */
  predicate ClientIndexComplete(m: OperationMap) {
    forall t :: t in m.ops ==> m.ops[t].appToken in m.clients && t in m.clients[m.ops[t].appToken]
  }

  /** The invariant tying the three collections together. */
  predicate Valid(m: OperationMap) {
    && TokensAllocated(m)
    && LruWellFormed(m)
    && ClientIndexSound(m)
    && ClientIndexComplete(m)
  }

  /** The constructor: an empty registry (the death recipient is not modelled). */
  function Create(): (m: OperationMap)
    ensures Valid(m)
    ensures GetOperationCount(m) == 0 && !HasPruneableOperation(m)
  {
    OperationMap(map[], [], map[], 0)
  }

  /** The operations the client `appToken` has in flight, oldest first. */
  function GetOperationsForToken(m: OperationMap, appToken: AppToken): (r: seq<Token>)
    ensures appToken !in m.clients ==> r == []
  {
    if appToken in m.clients then m.clients[appToken] else []
  }

  /** On a valid registry, a client's list holds exactly the live operations
      that client started, each once. */
  lemma GetOperationsForTokenExact(m: OperationMap, appToken: AppToken)
    requires Valid(m)
    ensures NoDup(GetOperationsForToken(m, appToken))
    ensures forall t :: t in GetOperationsForToken(m, appToken) <==> t in m.ops && m.ops[t].appToken == appToken
  {
    var r := GetOperationsForToken(m, appToken);
    if appToken in m.clients {
      assert ClientEntrySound(m, appToken);
      forall t | t in r ensures t in m.ops && m.ops[t].appToken == appToken {
        var k :| 0 <= k < |r| && r[k] == t;
      }
    }
  }

  /** Registers a new operation and returns its fresh token. The new
      operation carries no auth token; it enters the LRU (as most recent)
      only when `pruneable`, and is appended to its client's list. */
  function AddOperation(m: OperationMap, handle: uint64, keyId: uint64, purpose: KeyPurpose,
                        device: Device, appToken: AppToken, characteristics: KeyCharacteristics,
                        pruneable: bool): (r: (Token, OperationMap))
    requires Valid(m)
    ensures r.0 !in m.ops
    ensures Valid(r.1)
    ensures r.1.ops.Keys == m.ops.Keys + {r.0}
    ensures forall t :: t in m.ops ==> r.1.ops[t] == m.ops[t]
    ensures r.1.ops[r.0] == Operation(handle, keyId, purpose, device, characteristics, appToken, NoAuthToken)
    ensures GetOperationCount(r.1) == GetOperationCount(m) + 1
    ensures r.0 in r.1.lru <==> pruneable
    ensures r.1.lru == if pruneable then m.lru + [r.0] else m.lru
    ensures GetOperationsForToken(r.1, appToken) == GetOperationsForToken(m, appToken) + [r.0]
    ensures forall a :: a != appToken ==> GetOperationsForToken(r.1, a) == GetOperationsForToken(m, a)
  {
    var token := Token(m.nextId);
    var op := Operation(handle, keyId, purpose, device, characteristics, appToken, NoAuthToken);
    var m' := Registered(m, token, op, pruneable);
    RegisteredValid(m, token, op, pruneable);
    (token, m')
  }

  /** The registry after recording `op` under the fresh token `token`. */
  function Registered(m: OperationMap, token: Token, op: Operation, pruneable: bool): (r: OperationMap)
  {
    OperationMap(
      m.ops[token := op],
      if pruneable then m.lru + [token] else m.lru,
      m.clients[op.appToken := GetOperationsForToken(m, op.appToken) + [token]],
      m.nextId + 1)
  }

  /** Recording an operation under a freshly allocated token keeps the
      registry valid and grows it by one. */
  lemma RegisteredValid(m: OperationMap, token: Token, op: Operation, pruneable: bool)
    requires Valid(m) && token == Token(m.nextId)
    ensures token !in m.ops
    ensures Valid(Registered(m, token, op, pruneable))
    ensures |Registered(m, token, op, pruneable).ops| == |m.ops| + 1
  {
    var m' := Registered(m, token, op, pruneable);
    var mine := GetOperationsForToken(m, op.appToken);
    GetOperationsForTokenExact(m, op.appToken);
    assert token !in m.ops;
    assert token !in mine;
    assert NoDup(mine + [token]) by {
      forall i, j | 0 <= i < j < |mine + [token]| ensures (mine + [token])[i] != (mine + [token])[j] {
        if j == |mine| {
          assert (mine + [token])[i] == mine[i];
        } else {
          assert (mine + [token])[i] == mine[i] && (mine + [token])[j] == mine[j];
        }
      }
    }
    assert LruWellFormed(m') by {
      if pruneable {
        var l := m.lru + [token];
        forall i, j | 0 <= i < j < |l| ensures l[i] != l[j] {
          assert l[i] == m.lru[i];
          if j < |m.lru| {
            assert l[j] == m.lru[j];
          }
        }
        forall i | 0 <= i < |l| ensures l[i] in m'.ops {
          if i < |m.lru| {
            assert l[i] == m.lru[i];
          }
        }
      }
    }
    assert ClientIndexSound(m') by {
      forall a | a in m'.clients
        ensures ClientEntrySound(m', a)
      {
        assert a != op.appToken ==> ClientEntrySound(m, a);
        if a == op.appToken {
          forall i | 0 <= i < |mine + [token]|
            ensures (mine + [token])[i] in m'.ops && m'.ops[(mine + [token])[i]].appToken == a
          {
            if i < |mine| {
              assert (mine + [token])[i] == mine[i];
            }
          }
        }
      }
    }
    assert ClientIndexComplete(m') by {
      forall t | t in m'.ops
        ensures m'.ops[t].appToken in m'.clients && t in m'.clients[m'.ops[t].appToken]
      {
        if t != token && m.ops[t].appToken == op.appToken {
          assert t in mine;
        }
      }
    }
  }

  /** Moves `token` to the most-recent end of the LRU, if it is listed there. */
  function UpdateLru(lru: seq<Token>, token: Token): (r: seq<Token>)
    ensures multiset(r) == multiset(lru)
    ensures token in lru ==> |r| > 0 && r[|r| - 1] == token
    ensures token !in lru ==> r == lru
  {
    if token in lru then RemoveFirst(lru, token) + [token] else lru
  }

  /** Looks up an operation; a hit counts as a use and moves a pruneable
      operation to the most-recent end of the LRU, keeping the others in
      order. A hit on an operation that is not pruneable, and an unknown
      token, change nothing. */
  function GetOperation(m: OperationMap, token: Token): (r: (Option<Operation>, OperationMap))
    ensures r.0.Some? <==> token in m.ops
    ensures token in m.ops ==> r.0.value == m.ops[token]
    ensures token !in m.ops ==> r.1 == m
    ensures r.1.ops == m.ops && r.1.clients == m.clients && r.1.nextId == m.nextId
    ensures multiset(r.1.lru) == multiset(m.lru)
    ensures token in m.ops && token in m.lru ==> r.1.lru[|r.1.lru| - 1] == token
    ensures token in m.ops && token !in m.lru ==> r.1 == m
    ensures LruWellFormed(m) && token in m.lru ==>
      RemoveFirst(r.1.lru, token) == RemoveFirst(m.lru, token)
  {
    if token !in m.ops then (None, m)
    else
      MoveToBackKeepsOthers(m.lru, token);
      (Some(m.ops[token]), m.(lru := UpdateLru(m.lru, token)))
  }

  /** Drops `token` from the list of `appToken`; the client entry disappears
      when its last operation goes (keystore then stops watching that
      client's death). An unknown client is left alone. */
  function RemoveOperationTracking(clients: map<AppToken, seq<Token>>, token: Token,
                                   appToken: AppToken): (r: map<AppToken, seq<Token>>)
    ensures appToken !in clients ==> r == clients
    ensures forall a :: a != appToken ==> (a in r <==> a in clients)
    ensures forall a :: a != appToken && a in r ==> r[a] == clients[a]
    ensures appToken in clients ==>
      (appToken in r <==> |RemoveFirst(clients[appToken], token)| > 0)
    ensures appToken in r ==> r[appToken] == RemoveFirst(clients[appToken], token)
  {
    if appToken !in clients then clients
    else
      var rest := RemoveFirst(clients[appToken], token);
      if |rest| == 0 then clients - {appToken} else clients[appToken := rest]
  }

  /** Removes an operation and returns it. It leaves the map, the LRU and its
      client's list. An unknown token yields `None` and changes nothing. */
  function RemoveOperation(m: OperationMap, token: Token): (r: (Option<Operation>, OperationMap))
    ensures token !in m.ops ==> r == (None, m)
    ensures token in m.ops ==> r.0 == Some(m.ops[token])
    ensures token in m.ops ==> r.1.ops == m.ops - {token}
    ensures token in m.ops ==> |r.1.ops| == |m.ops| - 1
    ensures r.1.nextId == m.nextId
    ensures token in m.ops ==> r.1.lru == RemoveFirst(m.lru, token)
    ensures token in m.ops ==>
      forall a :: a != m.ops[token].appToken ==> GetOperationsForToken(r.1, a) == GetOperationsForToken(m, a)
  {
    if token !in m.ops then (None, m)
    else
      var op := m.ops[token];
      (Some(op), OperationMap(
        m.ops - {token},
        RemoveFirst(m.lru, token),
        RemoveOperationTracking(m.clients, token, op.appToken),
        m.nextId))
  }

  /** True when some operation may be pruned. */
  function HasPruneableOperation(m: OperationMap): (r: bool)
    ensures r <==> GetPruneableOperationCount(m) > 0
  {
    |m.lru| != 0
  }

  /** The number of live operations: on a valid registry, as many as the
      distinct tokens the client index lists; zero exactly when no
      operation is in flight. */
  function GetOperationCount(m: OperationMap): (r: nat)
    ensures Valid(m) ==> r == |IndexedTokens(m)|
    ensures r == 0 <==> m.ops == map[]
  {
    IndexListsExactlyOperations(m);
    |m.ops|
  }

  /** The tokens listed anywhere in the client index. */
  function IndexedTokens(m: OperationMap): (r: set<Token>) {
    set a, t | a in m.clients && t in m.clients[a] :: t
  }

  /** On a valid registry the map and the client index hold the same
      operations. */
  lemma IndexListsExactlyOperations(m: OperationMap)
    ensures Valid(m) ==> m.ops.Keys == IndexedTokens(m)
  {
    if Valid(m) {
      forall t | t in IndexedTokens(m) ensures t in m.ops {
        var a :| a in m.clients && t in m.clients[a];
        assert ClientEntrySound(m, a);
        var k :| 0 <= k < |m.clients[a]| && m.clients[a][k] == t;
      }
      forall t | t in m.ops ensures t in IndexedTokens(m) {
        var a := m.ops[t].appToken;
        assert a in m.clients && t in m.clients[a];
      }
    }
  }

  /** The number of pruneable operations. */
  function GetPruneableOperationCount(m: OperationMap): (r: nat)
    ensures Valid(m) ==> r <= GetOperationCount(m)
  {
    LruBoundedByOperations(m);
    |m.lru|
  }

  /** Attaches an auth token to a live operation. Returns false and changes
      nothing for an unknown token; otherwise only that operation's auth
      token changes. */
  function SetOperationAuthToken(m: OperationMap, token: Token, authToken: HardwareAuthToken): (r: (bool, OperationMap))
    ensures r.0 <==> token in m.ops
    ensures !r.0 ==> r.1 == m
    ensures r.1.ops.Keys == m.ops.Keys
    ensures forall t :: t in m.ops && t != token ==> r.1.ops[t] == m.ops[t]
    ensures r.0 ==> r.1.ops[token].authToken == authToken
    ensures r.0 ==> r.1.ops[token].(authToken := m.ops[token].authToken) == m.ops[token]
    ensures r.1.lru == m.lru && r.1.clients == m.clients && r.1.nextId == m.nextId
  {
    if token !in m.ops then (false, m)
    else (true, m.(ops := m.ops[token := m.ops[token].(authToken := authToken)]))
  }

  /** The least recently used pruneable operation, or `None` when there is none. */
  function GetOldestPruneableOperation(m: OperationMap): (r: Option<Token>)
    ensures r.None? <==> !HasPruneableOperation(m)
    ensures Valid(m) && r.Some? ==> r.value in m.ops && r.value in m.lru
  {
    if !HasPruneableOperation(m) then None else Some(m.lru[0])
  }

  /** The LRU is never longer than the map: it lists distinct live tokens. */
  lemma LruBoundedByOperations(m: OperationMap)
    ensures Valid(m) ==> |m.lru| <= |m.ops|
  {
    if Valid(m) {
      DistinctCardinality(m.lru);
      var listed := Elements(m.lru);
      assert listed <= m.ops.Keys by {
        forall t | t in listed ensures t in m.ops {
          var i :| 0 <= i < |m.lru| && m.lru[i] == t;
        }
      }
      assert m.ops.Keys == listed + (m.ops.Keys - listed);
    }
  }
}
