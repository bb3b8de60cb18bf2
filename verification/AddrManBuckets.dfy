/** How far one network group can spread over the buckets. */
module AddrManBuckets {
  import Common
  import opened AddrManState

  ghost function Image(f: nat -> nat, n: nat): (s: set<nat>)
    ensures |s| <= n && forall i | 0 <= i < n :: f(i) in s
  {
    if n == 0 then {} else Image(f, n - 1) + {f(n - 1)}
  }

  lemma ImageHas(f: nat -> nat, n: nat, i: nat)
    requires i < n
    ensures f(i) in Image(f, n)
  {
  }

  ghost function TriedBuckets(env: Env, services: set<Service>): set<nat> {
    set svc | svc in services :: TriedBucket(env, svc)
  }

  /** All addresses of one group together reach at most eight tried buckets. */
  lemma TriedGroupSpread(env: Env, group: nat, services: set<Service>)
    requires forall svc | svc in services :: env.group(svc.addr) == group
    ensures |TriedBuckets(env, services)| <= TRIED_BUCKETS_PER_GROUP
  {
    hide Image;
    var f := (i: nat) => env.cheapHash(TriedGroup(env.nKey, group, i)) % TRIED_BUCKET_COUNT;
    var all := Image(f, TRIED_BUCKETS_PER_GROUP);
    forall svc | svc in services
      ensures TriedBucket(env, svc) in all
    {
      var i := env.cheapHash(TriedKey(env.nKey, svc)) % TRIED_BUCKETS_PER_GROUP;
      ImageHas(f, TRIED_BUCKETS_PER_GROUP, i);
      assert TriedBucket(env, svc) == f(i);
    }
    Common.SubsetSize(TriedBuckets(env, services), all);
  }

  ghost function NewBuckets(env: Env, known: set<(Service, NetAddr)>): set<nat> {
    set e | e in known :: NewBucket(env, e.0, e.1)
  }

  /** All addresses heard from sources of one group reach at most sixty-four new buckets. */
  lemma SourceGroupSpread(env: Env, group: nat, known: set<(Service, NetAddr)>)
    requires forall e | e in known :: env.group(e.1) == group
    ensures |NewBuckets(env, known)| <= NEW_BUCKETS_PER_SOURCE_GROUP
  {
    hide Image;
    var f := (i: nat) => env.cheapHash(NewSource(env.nKey, group, i)) % NEW_BUCKET_COUNT;
    var all := Image(f, NEW_BUCKETS_PER_SOURCE_GROUP);
    forall e | e in known
      ensures NewBucket(env, e.0, e.1) in all
    {
      var hash1 := env.cheapHash(NewGroups(env.nKey, env.group(e.0.addr), env.group(e.1)));
      var i := hash1 % NEW_BUCKETS_PER_SOURCE_GROUP;
      ImageHas(f, NEW_BUCKETS_PER_SOURCE_GROUP, i);
      assert NewBucket(env, e.0, e.1) == f(i);
    }
    Common.SubsetSize(NewBuckets(env, known), all);
  }
}
