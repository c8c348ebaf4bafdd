/**
 The Redis limiter as the repository writes it: the Lua script's statements in order on
 the server's keys, and the Go method around the call. Both are proved against the
 service's transition system.
 */
module RedisLimiter {
  import opened Arithmetic
  import opened Limits
  import opened Events
  import History
  import Pipeline
  import RedisKeys
  import Bucket = RedisBucket
  import Service

  const DEFAULT_MAX_BACKLOG: int := 100_000

  /** The Redis server as the script sees it, shared by every API instance. */
  class RedisServer {
    var buckets: map<string, Bucket.Bucket>
    var stream: map<nat, Message>
    var lastID: nat
    ghost var history: seq<Service.Appended>

    ghost predicate Valid()
      reads this
    {
      lastID == |history|
    }

    constructor ()
      ensures Valid() && View(0) == Service.START
    {
      buckets, stream, lastID := map[], map[], 0;
      history := [];
    }

    /** The server within the whole service; the parts the script never touches are empty. */
    ghost function View(clock: int): Service.System
      reads this
    {
      Service.System(clock, buckets, history, Pipeline.EMPTY.(stream := stream), map[])
    }

    function Stored(name: string): Option<Bucket.Bucket>
      reads this
    {
      if name in buckets then Some(buckets[name]) else None
    }

    /**
     The script body. `tokens` is scaled by the window, so comparing, subtracting and
     refilling are exact; floors and ceilings divide the scale out again.
     */
    method RunScript(name: string, capacity: int, windowMS: int, cost: int, ttlMS: int,
                     clientID: Text, resource: Text, maxBacklog: int, nowMS: int)
      returns (reply: Bucket.Reply)
      requires Valid() && capacity > 0 && windowMS > 0 && ttlMS == 2 * windowMS
      modifies this
      ensures Valid()
      ensures var sp, room := Policy(capacity, windowMS), |old(stream)| < maxBacklog;
              && reply == Bucket.Respond(sp, old(Stored(name)), nowMS, cost, room)
              && buckets == Service.Put(old(buckets), name, Bucket.Settle(sp, old(Stored(name)), nowMS, cost, room))
      ensures if reply.allowed
              then View(nowMS)
                   == Service.Append(old(View(nowMS)), Event(clientID, resource, cost, nowMS, reply.remaining)).(buckets := buckets)
              else View(nowMS) == old(View(nowMS)).(buckets := buckets)
    {
      hide Encode, CeilDiv;
      var full := capacity * windowMS;
      var tokens, lastRefillMS;
      if name !in buckets {
        tokens, lastRefillMS := full, nowMS;
      } else {
        var elapsedMS := Max(0, nowMS - buckets[name].lastRefillMS);
        tokens := Min(full, buckets[name].level + capacity * elapsedMS);
        lastRefillMS := nowMS;
      }

      var allowed, retryAfterMS, backlogFull := false, 0, false;
      if cost * windowMS <= tokens {
        if |stream| >= maxBacklog {
          backlogFull := true;
        } else {
          allowed := true;
          tokens := tokens - cost * windowMS;
        }
      } else {
        retryAfterMS := Max(1, CeilDiv(cost * windowMS - tokens, capacity));
      }

      var remaining := tokens / windowMS;
      var resetAtMS := nowMS + CeilDiv(full - tokens, capacity);

      if !backlogFull {
        buckets := buckets[name := Bucket.Bucket(tokens, lastRefillMS, nowMS + ttlMS)];
        if allowed {
          var e := Event(clientID, resource, cost, nowMS, remaining);
          stream := stream[lastID := Encode(e)];
          lastID := lastID + 1;
          history := history + [Service.Appended(e, Encode(e))];
        }
      }
      reply := Bucket.Reply(allowed, remaining, resetAtMS, retryAfterMS, backlogFull);
    }
  }

  class RedisTokenBucketRateLimiter {
    const config: Service.Config
    const eventStream: string
    const server: RedisServer

    constructor (config: Service.Config, eventStream: string, server: RedisServer)
      requires Service.ValidConfig(config)
      ensures this.config == config && this.eventStream == eventStream && this.server == server
    {
      this.config := config;
      this.eventStream := eventStream;
      this.server := server;
    }

    /** A limiter, with the defaults for an empty prefix, an empty stream name and a zero backlog limit. */
    static method New(policies: map<Key, Policy>, prefix: string, eventStream: string, maxBacklog: int, server: RedisServer)
      returns (r: Option<RedisTokenBucketRateLimiter>)
      ensures r.Some? <==> maxBacklog >= 0 && (forall k <- policies ::
                             k.clientID != [] && k.resource != [] && policies[k].limit > 0 && policies[k].window > 0)
      ensures r.Some? ==>
                && fresh(r.value) && r.value.server == server
                && Service.ValidConfig(r.value.config) && r.value.config.policies == policies
                && r.value.config.prefix == (if prefix == "" then "rate_limit" else prefix)
                && r.value.eventStream == (if eventStream == "" then "rate_limit:approved_requests" else eventStream)
                && r.value.config.maxBacklog == (if maxBacklog == 0 then 100_000 else maxBacklog)
    {
      if !ValidPolicies(policies) {
        return None;
      }
      var keyPrefix := prefix;
      if keyPrefix == "" {
        keyPrefix := RedisKeys.DEFAULT_PREFIX;
      }
      var stream := eventStream;
      if stream == "" {
        stream := RedisKeys.DEFAULT_STREAM;
      }
      var backlog := maxBacklog;
      if backlog == 0 {
        backlog := DEFAULT_MAX_BACKLOG;
      }
      if backlog < 0 {
        return None;
      }
      var limiter := new RedisTokenBucketRateLimiter(Service.Config(policies, backlog, keyPrefix), stream, server);
      return Some(limiter);
    }

    /**
     One `Allow`, whatever becomes of the call: the answer and the new state are those of
     the service's check step at the server's clock, a lost reply included.
     */
    method Allow(nowMS: int, key: Key, cost: int, fate: Service.Fate) returns (outcome: Outcome)
      requires Service.ValidConfig(config) && server.Valid()
      modifies server
      ensures server.Valid()
      ensures outcome == Service.LimiterAnswer(config, old(server.View(nowMS)), key, cost, fate)
      ensures server.View(nowMS) == Service.LimiterEffect(config, old(server.View(nowMS)), key, cost, fate)
    {
      if fate == Service.ContextEnded {
        return Refused(Cancelled);
      }
      if cost <= 0 {
        InvalidCheckKeepsState(config, server.View(nowMS), key, cost);
        return Refused(InvalidCost);
      }
      if key !in config.policies {
        return Refused(NoPolicy);
      }
      var policy := config.policies[key];
      if cost > policy.limit {
        InvalidCheckKeepsState(config, server.View(nowMS), key, cost);
        return Refused(CostExceedsLimit);
      }
      Bucket.ScriptPolicyValid(policy);
      var windowMS := CeilDiv(policy.window, MS);
      if fate == Service.NeverRan {
        return Refused(CallFailed);
      }
      var result := server.RunScript(
        RedisKeys.RedisKey(config.prefix, key), policy.limit, windowMS, cost, windowMS * 2,
        key.clientID, key.resource, config.maxBacklog, nowMS);
      if fate == Service.ReplyLost {
        return Refused(CallFailed);
      }
      if result.backlogFull {
        return Refused(EventBacklogFull);
      }
      return Decided(Decision(result.allowed, policy.limit, result.remaining, result.resetAtMS * MS, result.retryAfterMS));
    }
  }

  /** A check refused before the script runs changes nothing. */
  lemma InvalidCheckKeepsState(c: Service.Config, s: Service.System, key: Key, cost: int)
    requires Service.ValidConfig(c)
    requires cost <= 0 || (key in c.policies && cost > c.policies[key].limit)
    ensures Service.ApplyCheck(c, s, key, cost) == s
  {
    if key in c.policies {
      var name := RedisKeys.RedisKey(c.prefix, key);
      assert Service.Put(s.buckets, name, Service.Stored(c, s, key)) == s.buckets;
    }
  }
}
