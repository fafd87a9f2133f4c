/** The two-way registry between transport client ids and participant orders,
    with the spawn type and join type stored per order. */
module ParticipantRegistry {
  import opened Wrappers
  import opened ParticipantTypes

  /** `Dictionary.Add` on a key that is already present throws. */
  datatype DictionaryError = DuplicateKey

  /** `g` undoes `f`: looking up the value of any key of `f` in `g` gives the key back. */
  ghost predicate Inverts<K, V>(f: map<K, V>, g: map<V, K>)
  {
    forall k :: k in f ==> f[k] in g && g[f[k]] == k
  }

  /** A map inverted by `g` is injective: it has as many distinct values as keys,
      and all of them are keys of `g`. */
  lemma {:induction false} InvertedMapValues(f: ClientMap, g: OrderMap)
    requires Inverts(f, g)
    ensures f.Values <= g.Keys
    ensures |f.Values| == |f|
  {
    if f != map[] {
      var k :| k in f;
      var f' := f - {k};
      assert Inverts(f', g);
      InvertedMapValues(f', g);
      forall v | v in f.Values ensures v in f'.Values + {f[k]} {
        var j :| j in f && f[j] == v;
        if j != k { assert f'[j] == v; }
      }
      forall v | v in f'.Values ensures v in f.Values {
        var j :| j in f' && f'[j] == v;
        assert f[j] == v;
      }
      assert f[k] in f.Values;
      assert f.Values == f'.Values + {f[k]};
      assert f[k] !in f'.Values;
      assert f.Keys == f'.Keys + {k};
    }
  }

  /** When `g` inverts `f`, the two maps have the same size exactly when every key
      of `g` is a value of `f`. */
  lemma SizesAgreeIffCovered(f: ClientMap, g: OrderMap)
    requires Inverts(f, g)
    ensures |f| == |g| <==> g.Keys == f.Values
  {
    InvertedMapValues(f, g);
    var extra := g.Keys - f.Values;
    assert g.Keys == f.Values + extra;
    assert |g.Keys| == |f.Values| + |extra|;
  }

  /** Giving `g` a fresh key keeps it an inverse of `f`. */
  lemma InvertsGrownInverse(f: ClientMap, g: OrderMap, o: ParticipantOrder, c: ClientId)
    requires Inverts(f, g) && o !in g
    ensures Inverts(f, g[o := c])
  {
  }

  /** Adding a fresh key adds its value to the values of a map. */
  lemma AddedKeyValues<K, V>(m: map<K, V>, k: K, v: V)
    requires k !in m
    ensures m[k := v].Values == m.Values + {v}
  {
    forall x | x in m.Values ensures x in m[k := v].Values {
      var j :| j in m && m[j] == x;
      assert m[k := v][j] == x;
    }
    assert m[k := v][k] == v;
  }

  /** Removing the only key that maps to a value removes that value. */
  lemma RemovedKeyValues<K, V>(m: map<K, V>, k: K)
    requires k in m
    requires forall j :: j in m && j != k ==> m[j] != m[k]
    ensures (m - {k}).Values == m.Values - {m[k]}
  {
    forall x | x in m.Values - {m[k]} ensures x in (m - {k}).Values {
      var j :| j in m && m[j] == x;
      assert (m - {k})[j] == x;
    }
  }

  // ---------------------------------------------------------------------------
  // The four dictionaries as values

  type ClientMap = map<ClientId, ParticipantOrder>
  type OrderMap = map<ParticipantOrder, ClientId>
  type SpawnMap = map<ParticipantOrder, SpawnType>
  type JoinMap = map<ParticipantOrder, JoinType>

  /** The class invariant. It holds in every state the registry can reach, a failed
      add included, and in some states no call sequence reaches: the client-to-order
      direction is inverted by the order-to-client one, and spawn and join types are
      stored exactly for the orders some client holds. */
  ghost predicate Linked(c2o: ClientMap, o2c: OrderMap, sp: SpawnMap, jn: JoinMap)
  {
    && Inverts(c2o, o2c)
    && sp.Keys == c2o.Values
    && jn.Keys == c2o.Values
  }

  /** The lock-step the four dictionaries are meant to keep: the two directions are
      mutual inverses and the three order-keyed maps share one key set. */
  ghost predicate Lockstep(c2o: ClientMap, o2c: OrderMap, sp: SpawnMap, jn: JoinMap)
  {
    && Inverts(c2o, o2c)
    && Inverts(o2c, c2o)
    && sp.Keys == o2c.Keys
    && jn.Keys == o2c.Keys
  }

  /** Orders in the order-to-client direction that no client maps back to. */
  ghost function Uncovered(c2o: ClientMap, o2c: OrderMap): set<ParticipantOrder>
  {
    o2c.Keys - c2o.Values
  }

  /** The intended lock-step is a linked state. */
  lemma LockstepIsLinked(c2o: ClientMap, o2c: OrderMap, sp: SpawnMap, jn: JoinMap)
    requires Lockstep(c2o, o2c, sp, jn)
    ensures Linked(c2o, o2c, sp, jn)
    ensures c2o.Values == o2c.Keys
  {
  }

  /** A linked state keeps the intended lock-step exactly when no order is uncovered. */
  lemma LockstepIffNoneUncovered(c2o: ClientMap, o2c: OrderMap, sp: SpawnMap, jn: JoinMap)
    requires Linked(c2o, o2c, sp, jn)
    ensures Lockstep(c2o, o2c, sp, jn) <==> Uncovered(c2o, o2c) == {}
  {
    InvertedMapValues(c2o, o2c);
    if Uncovered(c2o, o2c) == {} {
      forall o | o in o2c ensures o2c[o] in c2o && c2o[o2c[o]] == o {
        assert o !in Uncovered(c2o, o2c);
        var c :| c in c2o && c2o[c] == o;
      }
    }
  }

  /** In a linked state the two directions have the same size exactly when the
      intended lock-step holds; this is the check the participant count performs. */
  lemma SizesAgreeIffLockstep(c2o: ClientMap, o2c: OrderMap, sp: SpawnMap, jn: JoinMap)
    requires Linked(c2o, o2c, sp, jn)
    ensures |c2o| == |o2c| <==> Lockstep(c2o, o2c, sp, jn)
  {
    SizesAgreeIffCovered(c2o, o2c);
    LockstepIffNoneUncovered(c2o, o2c, sp, jn);
  }

  /** Registering a fresh order under a fresh client keeps the state linked and
      uncovers nothing. */
  lemma RegisterKeepsLinked(c2o: ClientMap, o2c: OrderMap, sp: SpawnMap, jn: JoinMap,
                               po: ParticipantOrder, id: ClientId, st: SpawnType, jt: JoinType)
    requires Linked(c2o, o2c, sp, jn) && po !in o2c && id !in c2o
    ensures Linked(c2o[id := po], o2c[po := id], sp[po := st], jn[po := jt])
    ensures Uncovered(c2o[id := po], o2c[po := id]) == Uncovered(c2o, o2c)
  {
    InvertsGrownInverse(c2o, o2c, po, id);
    AddedKeyValues(c2o, id, po);
  }

  /** Growing only the order-to-client direction, as the throwing add does, keeps the
      state linked but leaves the new order uncovered, so the lock-step is lost. */
  lemma HalfAddUncoversOrder(c2o: ClientMap, o2c: OrderMap, sp: SpawnMap, jn: JoinMap,
                             po: ParticipantOrder, id: ClientId)
    requires Linked(c2o, o2c, sp, jn) && po !in o2c
    ensures Linked(c2o, o2c[po := id], sp, jn)
    ensures Uncovered(c2o, o2c[po := id]) == Uncovered(c2o, o2c) + {po}
    ensures !Lockstep(c2o, o2c[po := id], sp, jn)
  {
  }

  /** Removing a registered client and its order from all four maps keeps the state
      linked and uncovers nothing. */
  lemma UnregisterKeepsLinked(c2o: ClientMap, o2c: OrderMap, sp: SpawnMap, jn: JoinMap, id: ClientId)
    requires Linked(c2o, o2c, sp, jn) && id in c2o
    ensures Linked(c2o - {id}, o2c - {c2o[id]}, sp - {c2o[id]}, jn - {c2o[id]})
    ensures Uncovered(c2o - {id}, o2c - {c2o[id]}) == Uncovered(c2o, o2c)
  {
    assert forall j :: j in c2o && j != id ==> c2o[j] != c2o[id];
    RemovedKeyValues(c2o, id);
  }

  class ParticipantOrderMapping {
    var clientToOrder: map<ClientId, ParticipantOrder>
    var orderToClient: map<ParticipantOrder, ClientId>
    var orderToSpawnType: map<ParticipantOrder, SpawnType>
    var orderToJoinType: map<ParticipantOrder, JoinType>

    /** The class invariant: see `Linked`. */
    ghost predicate Valid()
      reads this
    {
      Linked(clientToOrder, orderToClient, orderToSpawnType, orderToJoinType)
    }

    /** The intended lock-step: see `Lockstep`. */
    ghost predicate Consistent()
      reads this
    {
      Lockstep(clientToOrder, orderToClient, orderToSpawnType, orderToJoinType)
    }

    /** Orders present in the order-to-client direction that no client maps back to. */
    ghost function Orphans(): set<ParticipantOrder>
      reads this
    {
      Uncovered(clientToOrder, orderToClient)
    }

    constructor ()
      ensures Valid() && Consistent()
      ensures clientToOrder == map[] && orderToClient == map[]
      ensures orderToSpawnType == map[] && orderToJoinType == map[]
    {
      orderToClient := map[];
      clientToOrder := map[];
      orderToSpawnType := map[];
      orderToJoinType := map[];
    }

    /** Registers `id` under `po`; refused when `po` is taken. An `id` that is already
        registered makes the second `Dictionary.Add` throw after the first one has
        already grown `orderToClient`, which leaves an orphan behind for good. */
    method AddParticipant(po: ParticipantOrder, id: ClientId, st: SpawnType, jt: JoinType)
      returns (r: Result<bool, DictionaryError>)
      requires Valid()
      modifies this
      ensures Valid()
      ensures po in old(orderToClient) ==> r == Success(false) && unchanged(this)
      ensures po !in old(orderToClient) && id in old(clientToOrder) ==>
        && r == Failure(DuplicateKey)
        && orderToClient == old(orderToClient)[po := id]
        && clientToOrder == old(clientToOrder)
        && orderToSpawnType == old(orderToSpawnType)
        && orderToJoinType == old(orderToJoinType)
        && Orphans() == old(Orphans()) + {po}
      ensures po !in old(orderToClient) && id !in old(clientToOrder) ==>
        && r == Success(true)
        && clientToOrder == old(clientToOrder)[id := po]
        && orderToClient == old(orderToClient)[po := id]
        && orderToSpawnType == old(orderToSpawnType)[po := st]
        && orderToJoinType == old(orderToJoinType)[po := jt]
        && Orphans() == old(Orphans())
      ensures r == Success(true) ==>
        && GetOrder(id) == (true, po)
        && GetClientID(po) == (true, id)
        && GetSpawnType(po) == (true, st)
        && GetJoinType(po) == (true, jt)
      ensures old(Consistent()) && id !in old(clientToOrder) ==> Consistent()
      ensures r.Failure? || !old(Consistent()) ==> !Consistent() && GetParticipantCount() == -1
    {
      var c2o, o2c, sp, jn := clientToOrder, orderToClient, orderToSpawnType, orderToJoinType;
      LockstepIffNoneUncovered(c2o, o2c, sp, jn);
      if po !in orderToClient {
        orderToClient := orderToClient[po := id];
        if id in clientToOrder {
          HalfAddUncoversOrder(c2o, o2c, sp, jn, po, id);
          return Failure(DuplicateKey);
        }
        clientToOrder := clientToOrder[id := po];
        // Under Valid() the order-keyed maps have no key outside orderToClient,
        // so the two remaining `Dictionary.Add` calls cannot throw.
        orderToSpawnType := orderToSpawnType[po := st];
        orderToJoinType := orderToJoinType[po := jt];
        RegisterKeepsLinked(c2o, o2c, sp, jn, po, id, st, jt);
        LockstepIffNoneUncovered(clientToOrder, orderToClient, orderToSpawnType, orderToJoinType);
        return Success(true);
      }
      return Success(false);
    }

    /** Unregisters `id` and its order from all four maps; reports whether `id` was registered. */
    method RemoveParticipant(id: ClientId) returns (found: bool)
      requires Valid()
      modifies this
      ensures Valid()
      ensures found == (id in old(clientToOrder))
      ensures !found ==> unchanged(this)
      ensures found ==>
        var or := old(clientToOrder)[id];
        && clientToOrder == old(clientToOrder) - {id}
        && orderToClient == old(orderToClient) - {or}
        && orderToSpawnType == old(orderToSpawnType) - {or}
        && orderToJoinType == old(orderToJoinType) - {or}
      ensures Orphans() == old(Orphans())
      ensures Consistent() <==> old(Consistent())
    {
      var c2o, o2c, sp, jn := clientToOrder, orderToClient, orderToSpawnType, orderToJoinType;
      LockstepIffNoneUncovered(c2o, o2c, sp, jn);
      var outVal := GetOrder(id);
      found := outVal.0;
      var or := outVal.1;
      if found && or in orderToClient && id in clientToOrder {
        orderToClient := orderToClient - {or};
        clientToOrder := clientToOrder - {id};
        orderToSpawnType := orderToSpawnType - {or};
        orderToJoinType := orderToJoinType - {or};
        UnregisterKeepsLinked(c2o, o2c, sp, jn, id);
        LockstepIffNoneUncovered(clientToOrder, orderToClient, orderToSpawnType, orderToJoinType);
      }
    }

    /** Whether `or` has an entry in the order-to-client direction. */
    function CheckOrder(or: ParticipantOrder): (b: bool)
      reads this
      ensures b <==> or in orderToClient
      ensures Consistent() ==> (b <==> exists id :: id in clientToOrder && clientToOrder[id] == or)
    {
      or in orderToClient
    }

    /** Whether `id` is registered; a registered client's order is itself registered. */
    function CheckClientID(id: ClientId): (b: bool)
      requires Valid()
      reads this
      ensures b <==> id in clientToOrder
      ensures b ==> CheckOrder(clientToOrder[id])
    {
      id in clientToOrder
    }

    /** The order of `id`, or `(false, None)` when `id` is not registered. */
    function GetOrder(id: ClientId): (r: (bool, ParticipantOrder))
      reads this
      ensures r.0 <==> id in clientToOrder
      ensures r.0 ==> r.1 == clientToOrder[id]
      ensures !r.0 ==> r.1 == ParticipantOrder.None
      ensures Valid() && r.0 ==> GetClientID(r.1) == (true, id)
    {
      if id in clientToOrder then (true, clientToOrder[id]) else (false, ParticipantOrder.None)
    }

    /** The client of `or`, or `(false, 0)` when `or` is not registered. */
    function GetClientID(or: ParticipantOrder): (r: (bool, ClientId))
      reads this
      ensures r.0 <==> or in orderToClient
      ensures r.0 ==> r.1 == orderToClient[or]
      ensures !r.0 ==> r.1 == 0
    {
      if CheckOrder(or) then (true, orderToClient[or]) else (false, 0)
    }

    /** Under the intended lock-step the two lookups are inverse to each other, in both directions. */
    lemma LookupsAreInverse(id: ClientId, or: ParticipantOrder)
      requires Consistent()
      ensures GetOrder(id) == (true, or) <==> GetClientID(or) == (true, id)
    {
    }

    /** The spawn type stored for `or`, or `(false, NONE)`. */
    function GetSpawnType(or: ParticipantOrder): (r: (bool, SpawnType))
      reads this
      ensures r.0 <==> or in orderToSpawnType
      ensures r.0 ==> r.1 == orderToSpawnType[or]
      ensures !r.0 ==> r.1 == NONE
      ensures Valid() ==> (r.0 <==> exists id :: id in clientToOrder && clientToOrder[id] == or)
    {
      if or in orderToSpawnType then (true, orderToSpawnType[or]) else (false, NONE)
    }

    /** The join type stored for `or`, or `(false, SCREEN)`. The guard tests the
        spawn-type map, which shares its keys with the join-type map. */
    function GetJoinType(or: ParticipantOrder): (r: (bool, JoinType))
      requires Valid()
      reads this
      ensures r.0 <==> or in orderToJoinType
      ensures r.0 ==> r.1 == orderToJoinType[or]
      ensures !r.0 ==> r.1 == SCREEN
      ensures r.0 == GetSpawnType(or).0
    {
      if or in orderToSpawnType then (true, orderToJoinType[or]) else (false, SCREEN)
    }

    /** The by-client spawn-type lookup as written: its guard is inverted, so a
        registered client gets `(false, NONE)` and an unregistered one gets the
        entry of order `None`. */
    function GetSpawnTypeOfClient(clientId: ClientId): (r: (bool, SpawnType))
      requires Valid()
      reads this
      ensures clientId in clientToOrder ==> r == (false, NONE)
      ensures clientId !in clientToOrder ==> r == GetSpawnType(ParticipantOrder.None)
      ensures r.0 ==> clientId !in clientToOrder && CheckOrder(ParticipantOrder.None)
    {
      var outVal := GetOrder(clientId);
      if outVal.0 then (false, NONE) else GetSpawnType(outVal.1)
    }

    /** The by-client join-type lookup as written, with the same inverted guard. */
    function GetJoinTypeOfClient(clientId: ClientId): (r: (bool, JoinType))
      requires Valid()
      reads this
      ensures clientId in clientToOrder ==> r == (false, SCREEN)
      ensures clientId !in clientToOrder ==> r == GetJoinType(ParticipantOrder.None)
      ensures r.0 ==> clientId !in clientToOrder && CheckOrder(ParticipantOrder.None)
    {
      var outVal := GetOrder(clientId);
      if outVal.0 then (false, SCREEN) else GetJoinType(outVal.1)
    }

    /** The by-client spawn-type lookup with the guard the authors evidently meant:
        it resolves the client's order and then fetches that order's spawn type. */
    function IntendedSpawnTypeOfClient(clientId: ClientId): (r: (bool, SpawnType))
      requires Valid()
      reads this
      ensures r.0 <==> clientId in clientToOrder
      ensures r.0 ==> r.1 == orderToSpawnType[clientToOrder[clientId]]
      ensures !r.0 ==> r.1 == NONE
    {
      var outVal := GetOrder(clientId);
      if !outVal.0 then (false, NONE) else GetSpawnType(outVal.1)
    }

    /** The by-client join-type lookup with the intended guard. */
    function IntendedJoinTypeOfClient(clientId: ClientId): (r: (bool, JoinType))
      requires Valid()
      reads this
      ensures r.0 <==> clientId in clientToOrder
      ensures r.0 ==> r.1 == orderToJoinType[clientToOrder[clientId]]
      ensures !r.0 ==> r.1 == SCREEN
    {
      var outVal := GetOrder(clientId);
      if !outVal.0 then (false, SCREEN) else GetJoinType(outVal.1)
    }

    /** The number of registrations, or -1 once the two directions disagree in size,
        which happens exactly when the intended lock-step is broken. */
    function GetParticipantCount(): (n: int)
      requires Valid()
      reads this
      ensures n == -1 <==> !Consistent()
      ensures n != -1 ==> n == |clientToOrder| == |orderToClient| == |orderToSpawnType|
    {
      SizesAgreeIffLockstep(clientToOrder, orderToClient, orderToSpawnType, orderToJoinType);
      InvertedMapValues(clientToOrder, orderToClient);
      if |clientToOrder| == |orderToClient| then |clientToOrder| else -1
    }

    /** A snapshot of the registered orders, each once. */
    method GetAllConnectedParticipants() returns (orders: seq<ParticipantOrder>)
      ensures (set o | o in orders) == orderToClient.Keys
      ensures |orders| == |orderToClient|
      ensures forall i, j :: 0 <= i < j < |orders| ==> orders[i] != orders[j]
    {
      orders := KeysToArray(orderToClient.Keys);
    }

    /** A snapshot of the registered client ids, each once. */
    method GetAllConnectedClients() returns (clients: seq<ClientId>)
      ensures (set c | c in clients) == clientToOrder.Keys
      ensures |clients| == |clientToOrder|
      ensures forall i, j :: 0 <= i < j < |clients| ==> clients[i] != clients[j]
    {
      clients := KeysToArray(clientToOrder.Keys);
    }
  }

  /** Registering client 42 under order A: the by-client spawn-type lookup as written
      reports a miss, while the intended lookup finds the stored spawn type. */
  method InvertedGuardWitness() returns (asWritten: (bool, SpawnType), intended: (bool, SpawnType))
    ensures asWritten == (false, NONE)
    ensures intended == (true, SpawnKind(1))
  {
    var mapping := new ParticipantOrderMapping();
    var added := mapping.AddParticipant(A, 42, SpawnKind(1), SCREEN);
    asWritten := mapping.GetSpawnTypeOfClient(42);
    intended := mapping.IntendedSpawnTypeOfClient(42);
  }

  /** Client 42 registered under A and then added again under B: the second add throws,
      the count turns to -1, and removing the client does not bring it back. */
  method DuplicateClientScenario() returns (second: Result<bool, DictionaryError>, countAfterAdd: int, countAfterRemove: int)
    ensures second == Failure(DuplicateKey)
    ensures countAfterAdd == -1 && countAfterRemove == -1
  {
    var mapping := new ParticipantOrderMapping();
    var first := mapping.AddParticipant(A, 42, SpawnKind(1), SCREEN);
    second := mapping.AddParticipant(B, 42, SpawnKind(2), SCREEN);
    countAfterAdd := mapping.GetParticipantCount();
    var removed := mapping.RemoveParticipant(42);
    countAfterRemove := mapping.GetParticipantCount();
  }

  /** `Keys.ToArray()`: every key once, in an unspecified order. */
  method KeysToArray<T>(keys: set<T>) returns (xs: seq<T>)
    ensures (set x | x in xs) == keys
    ensures |xs| == |keys|
    ensures forall i, j :: 0 <= i < j < |xs| ==> xs[i] != xs[j]
  {
    xs := [];
    var rest := keys;
    while rest != {}
      invariant rest <= keys
      invariant (set x | x in xs) == keys - rest
      invariant |xs| + |rest| == |keys|
      invariant forall i, j :: 0 <= i < j < |xs| ==> xs[i] != xs[j]
      decreases |rest|
    {
      var k :| k in rest;
      assert (set x | x in xs + [k]) == (set x | x in xs) + {k};
      xs := xs + [k];
      rest := rest - {k};
    }
  }
}
