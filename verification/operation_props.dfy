/** Properties of the operation registry that relate several of its
    operations: every operation preserves the registry invariant, removal
    erases a token everywhere, the client index and the LRU agree with the
    map, and the auth-token flag follows the attached token's MAC. */
module OperationProps {
  import opened Wrappers
  import opened Seqs
  import opened Operations

  /** Looking an operation up keeps the registry valid; the LRU keeps the
      same tokens, and the other tokens keep their relative order. */
  lemma GetOperationPreservesValid(m: OperationMap, token: Token)
    requires Valid(m)
    ensures Valid(GetOperation(m, token).1)
    ensures token in m.lru ==>
      RemoveFirst(GetOperation(m, token).1.lru, token) == RemoveFirst(m.lru, token)
  {
    var m' := GetOperation(m, token).1;
    if token in m.ops && token in m.lru {
      var rest := RemoveFirst(m.lru, token);
      RemoveFirstDistinct(m.lru, token);
      assert token !in rest;
      RemoveFirstOfAppended(rest, token);
      assert m'.lru == rest + [token];
      forall i, j | 0 <= i < j < |m'.lru| ensures m'.lru[i] != m'.lru[j] {
        assert m'.lru[i] == rest[i];
        if j < |rest| {
          assert m'.lru[j] == rest[j];
        }
      }
      forall i | 0 <= i < |m'.lru| ensures m'.lru[i] in m'.ops {
        if i < |rest| {
          assert m'.lru[i] == rest[i];
          assert rest[i] in rest;
        }
      }
    }
  }

  /** After a removal the token is gone from the map, from the LRU and from
      its client's list, and the registry stays valid. */
  lemma RemoveOperationErasesEverywhere(m: OperationMap, token: Token)
    requires Valid(m)
    ensures Valid(RemoveOperation(m, token).1)
    ensures token !in RemoveOperation(m, token).1.ops
    ensures token !in RemoveOperation(m, token).1.lru
    ensures forall a :: token !in GetOperationsForToken(RemoveOperation(m, token).1, a)
  {
    if token in m.ops {
      var m' := RemoveOperation(m, token).1;
      RemoveKeepsLru(m, token);
      RemoveKeepsClientIndexSound(m, token);
      RemoveKeepsClientIndexComplete(m, token);
      forall a ensures token !in GetOperationsForToken(m', a) {
        if a != m.ops[token].appToken {
          assert GetOperationsForToken(m', a) == GetOperationsForToken(m, a);
        }
      }
    }
  }

  lemma RemoveKeepsLru(m: OperationMap, token: Token)
    requires LruWellFormed(m) && token in m.ops
    ensures LruWellFormed(RemoveOperation(m, token).1)
    ensures token !in RemoveOperation(m, token).1.lru
  {
    var m' := RemoveOperation(m, token).1;
    var l := RemoveFirst(m.lru, token);
    assert m'.lru == l && m'.ops == m.ops - {token};
    RemoveFirstDistinct(m.lru, token);
    assert NoDup(l);
    forall i | 0 <= i < |l| ensures l[i] in m'.ops {
      assert l[i] in l;
      var k :| 0 <= k < |m.lru| && m.lru[k] == l[i];
    }
  }

  lemma RemoveKeepsClientIndexSound(m: OperationMap, token: Token)
    requires Valid(m) && token in m.ops
    ensures ClientIndexSound(RemoveOperation(m, token).1)
    ensures token !in GetOperationsForToken(RemoveOperation(m, token).1, m.ops[token].appToken)
  {
    var op := m.ops[token];
    var m' := RemoveOperation(m, token).1;
    var mine := m.clients[op.appToken];
    RemoveFirstDistinct(mine, token);
    forall a | a in m'.clients ensures ClientEntrySound(m', a) {
      if a == op.appToken {
        RemoveKeepsOwnEntry(m, token);
      } else {
        RemoveKeepsOtherEntry(m, token, a);
      }
    }
  }

  lemma RemoveKeepsOwnEntry(m: OperationMap, token: Token)
    requires Valid(m) && token in m.ops
    requires m.ops[token].appToken in RemoveOperation(m, token).1.clients
    ensures ClientEntrySound(RemoveOperation(m, token).1, m.ops[token].appToken)
  {
    var a := m.ops[token].appToken;
    var m' := RemoveOperation(m, token).1;
    var mine := m.clients[a];
    assert ClientEntrySound(m, a);
    RemoveFirstDistinct(mine, token);
    assert m'.clients[a] == RemoveFirst(mine, token);
    forall i | 0 <= i < |m'.clients[a]|
      ensures m'.clients[a][i] in m'.ops && m'.ops[m'.clients[a][i]].appToken == a
    {
      assert m'.clients[a][i] in m'.clients[a];
      var k :| 0 <= k < |mine| && mine[k] == m'.clients[a][i];
    }
  }

  lemma RemoveKeepsOtherEntry(m: OperationMap, token: Token, a: AppToken)
    requires Valid(m) && token in m.ops
    requires a in RemoveOperation(m, token).1.clients && a != m.ops[token].appToken
    ensures ClientEntrySound(RemoveOperation(m, token).1, a)
  {
    var m' := RemoveOperation(m, token).1;
    assert ClientEntrySound(m, a);
    assert m'.clients[a] == m.clients[a];
    forall i | 0 <= i < |m'.clients[a]|
      ensures m'.clients[a][i] in m'.ops && m'.ops[m'.clients[a][i]].appToken == a
    {
      assert m.ops[m.clients[a][i]].appToken == a;
    }
  }

  lemma RemoveKeepsClientIndexComplete(m: OperationMap, token: Token)
    requires Valid(m) && token in m.ops
    ensures ClientIndexComplete(RemoveOperation(m, token).1)
  {
    var op := m.ops[token];
    var m' := RemoveOperation(m, token).1;
    var mine := m.clients[op.appToken];
    RemoveFirstDistinct(mine, token);
    forall t | t in m'.ops
      ensures m'.ops[t].appToken in m'.clients && t in m'.clients[m'.ops[t].appToken]
    {
      if m.ops[t].appToken == op.appToken {
        assert t in mine;
        assert t in RemoveFirst(mine, token);
      }
    }
  }

  /** Attaching an auth token keeps the registry valid. */
  lemma SetOperationAuthTokenPreservesValid(m: OperationMap, token: Token, authToken: HardwareAuthToken)
    requires Valid(m)
    ensures Valid(SetOperationAuthToken(m, token, authToken).1)
  {
    var m' := SetOperationAuthToken(m, token, authToken).1;
    assert forall t :: t in m'.ops ==> m'.ops[t].appToken == m.ops[t].appToken;
  }

  /** A live token can be looked up, and the lookup yields the operation
      that was added under it, without an auth token. */
  lemma AddedOperationIsRetrievable(m: OperationMap, handle: uint64, keyId: uint64, purpose: KeyPurpose,
                                    device: Device, appToken: AppToken, characteristics: KeyCharacteristics,
                                    pruneable: bool)
    requires Valid(m)
    ensures var (token, m') := AddOperation(m, handle, keyId, purpose, device, appToken, characteristics, pruneable);
      && GetOperation(m', token).0 == Some(Operation(handle, keyId, purpose, device, characteristics, appToken, NoAuthToken))
      && !GetOperation(m', token).0.value.HasAuthToken()
      && GetPruneableOperationCount(m') == GetPruneableOperationCount(m) + (if pruneable then 1 else 0)
  {
  }

  /** Each live operation is listed under exactly one client: its own. */
  lemma OperationListedOnce(m: OperationMap, token: Token)
    requires Valid(m) && token in m.ops
    ensures forall a :: token in GetOperationsForToken(m, a) <==> a == m.ops[token].appToken
    ensures multiset(GetOperationsForToken(m, m.ops[token].appToken))[token] == 1
  {
    var mine := GetOperationsForToken(m, m.ops[token].appToken);
    DistinctCardinality(mine);
    MultisetOfDistinct(mine, token);
  }

  /** In a duplicate-free sequence a listed element occurs exactly once. */
  lemma {:induction false} MultisetOfDistinct<T>(s: seq<T>, x: T)
    requires NoDup(s) && x in s
    ensures multiset(s)[x] == 1
  {
    NoDupTail(s);
    assert s == [s[0]] + s[1..];
    if s[0] != x {
      MultisetOfDistinct(s[1..], x);
    } else {
      assert x !in multiset(s[1..]);
    }
  }

  /** The pruneable count never exceeds the operation count, and there is a
      pruneable operation exactly when that count is positive. */
  lemma PruneableCountBounds(m: OperationMap)
    requires Valid(m)
    ensures GetPruneableOperationCount(m) <= GetOperationCount(m)
    ensures HasPruneableOperation(m) <==> GetPruneableOperationCount(m) > 0
    ensures HasPruneableOperation(m) ==> GetOperationCount(m) > 0
  {
  }

  /** The auth-token flag reflects the MAC of the token last attached, and
      attaching to one operation leaves every other operation's flag alone. */
  lemma HasAuthTokenAfterSet(m: OperationMap, token: Token, authToken: HardwareAuthToken, other: Token)
    requires token in m.ops
    ensures var m' := SetOperationAuthToken(m, token, authToken).1;
      && (GetOperation(m', token).0.value.HasAuthToken() <==> |authToken.mac| > 0)
      && (other in m.ops && other != token ==>
            (GetOperation(m', other).0.value.HasAuthToken() <==> m.ops[other].HasAuthToken()))
  {
  }

  /** Removing an operation and looking its token up again finds nothing;
      a second removal is a no-op. */
  lemma RemoveThenGet(m: OperationMap, token: Token)
    requires Valid(m)
    ensures var m' := RemoveOperation(m, token).1;
      && GetOperation(m', token).0 == None
      && RemoveOperation(m', token) == (None, m')
  {
    RemoveOperationErasesEverywhere(m, token);
  }
}
