/** The control plane's sender (pkg/stream/sender/sender.go): stored policies, connected
    clients and their heartbeats. Store, Delete, a stream request, a heartbeat and a sweep are
    each taken as one step. */
module Sender {
  import opened Options
  import opened Policies
  import opened Order
  import opened Listener

  // ---- Heartbeats and sweeps, as functions of the maps ---------------------------------

  // A heartbeat is recorded unless a later one is known. Times are the clients' clocks.
  function Beat(beats: map<string, int>, client: string, t: int): map<string, int> {
    if client !in beats || t > beats[client] then beats[client := t] else beats
  }

  predicate Inactive(beats: map<string, int>, client: string, now: int, limit: int) {
    client in beats && now - beats[client] > limit
  }

  ghost function Evicted(beats: map<string, int>, now: int, limit: int): set<string> {
    set c | c in beats && Inactive(beats, c, now, limit)
  }

  ghost function Members(clients: seq<string>): set<string> { set c | c in clients }

  lemma MembersNext(clients: seq<string>, i: nat)
    requires i < |clients|
    ensures Members(clients[..i + 1]) == Members(clients[..i]) + {clients[i]}
  {
    assert clients[..i + 1] == clients[..i] + [clients[i]];
  }

  lemma RemoveOneMore<V>(m: map<string, V>, gone: set<string>, c: string)
    ensures m - gone - {c} == m - (gone + {c})
  {}

  class PolicySender {
    const maxClientInactiveDuration: int
    var policies: map<string, Message>
    var sortPolicies: Closure<Message>
    var cxnsMap: map<string, nat>         // client address to stream
    var healthCheckMap: map<string, int>  // client address to latest heartbeat

    // The closure is missing until the first change, and only while there are no policies.
    ghost predicate Valid()
      reads this
    {
      && (sortPolicies.Unset? ==> policies == map[])
      && (sortPolicies.Forced? ==> sortPolicies.list == View(policies))
    }

    // The external policies are converted and then dropped.
    constructor (externalPolicies: seq<Policy>, maxClientInactiveDuration: int)
      ensures Valid() && policies == map[] && cxnsMap == map[] && healthCheckMap == map[]
      ensures this.maxClientInactiveDuration == maxClientInactiveDuration
    {
      var policyMap: map<string, Message> := map[];
      for i := 0 to |externalPolicies| {
        var q := ToProto(externalPolicies[i]);
        policyMap := policyMap[externalPolicies[i].name := q];
      }
      this.maxClientInactiveDuration := maxClientInactiveDuration;
      policies, sortPolicies, cxnsMap, healthCheckMap := map[], Unset, map[], map[];
    }

    method StorePolicy(q: Message)
      requires Valid()
      modifies this`policies, this`sortPolicies
      ensures Valid() && policies == old(policies)[q.name := q]
    {
      policies := policies[q.name := q];
      sortPolicies := Unforced;
    }

    method DeletePolicy(name: string)
      requires Valid()
      modifies this`policies, this`sortPolicies
      ensures Valid() && policies == old(policies) - {name}
    {
      policies := policies - {name};
      sortPolicies := Unforced;
    }

    // A client's request on its stream: every stored policy is sent to it, in name order, and
    // the stream becomes the client's connection.
    method OnStreamRequest(client: string, stream: nat) returns (sent: seq<Message>)
      requires Valid()
      modifies this`cxnsMap, this`sortPolicies
      ensures Valid() && sent == View(policies) && cxnsMap == old(cxnsMap)[client := stream]
    {
      sent := [];
      if |policies| > 0 {
        if sortPolicies.Unforced? {
          var list := MapToSortedSlice(policies);
          sortPolicies := Forced(list);
        }
        sent := sortPolicies.list;
      }
      cxnsMap := cxnsMap[client := stream];
    }

    // An invalid request (no address, or no time) changes nothing and gets no response.
    method HealthCheck(client: string, time: Option<int>) returns (answered: bool)
      requires Valid()
      modifies this`healthCheckMap
      ensures Valid() && (answered <==> client != "" && time.Some?)
      ensures healthCheckMap == if answered then Beat(old(healthCheckMap), client, time.value) else old(healthCheckMap)
    {
      if client == "" || time.None? { return false; }
      if client !in healthCheckMap || time.value > healthCheckMap[client] {
        healthCheckMap := healthCheckMap[client := time.value];
      }
      answered := true;
    }

    method DeleteInactive(now: int)
      requires Valid()
      modifies this`cxnsMap, this`healthCheckMap
      ensures Valid()
      ensures cxnsMap == old(cxnsMap) - Evicted(old(healthCheckMap), now, maxClientInactiveDuration)
      ensures healthCheckMap == old(healthCheckMap) - Evicted(old(healthCheckMap), now, maxClientInactiveDuration)
    {
      hide View;
      var inactive := GetInactiveClients(now);
      hide Evicted;
      for i := 0 to |inactive|
        invariant Valid()
        invariant cxnsMap == old(cxnsMap) - Members(inactive[..i])
        invariant healthCheckMap == old(healthCheckMap) - Members(inactive[..i])
      {
        MembersNext(inactive, i);
        RemoveOneMore(old(cxnsMap), Members(inactive[..i]), inactive[i]);
        RemoveOneMore(old(healthCheckMap), Members(inactive[..i]), inactive[i]);
        cxnsMap := cxnsMap - {inactive[i]};
        healthCheckMap := healthCheckMap - {inactive[i]};
      }
      assert inactive[..|inactive|] == inactive;
    }

    method GetInactiveClients(now: int) returns (inactive: seq<string>)
      ensures Members(inactive) == Evicted(healthCheckMap, now, maxClientInactiveDuration)
    {
      inactive := [];
      var left := healthCheckMap.Keys;
      while left != {}
        invariant left <= healthCheckMap.Keys
        invariant forall c :: c in inactive <==>
          c in healthCheckMap && c !in left && Inactive(healthCheckMap, c, now, maxClientInactiveDuration)
        decreases left
      {
        var c :| c in left;
        left := left - {c};
        if now - healthCheckMap[c] > maxClientInactiveDuration { inactive := inactive + [c]; }
      }
    }
  }
}
