/**
 * What the `activate` handler does with the caches left by earlier versions:
 * it deletes every cache whose name is neither on a fixed keep-list nor a
 * Workbox precache, and claims the open clients once every deletion has
 * completed.
 */
module CacheCleanup {
  import opened UrlPatterns
  import opened HostEffects

  /** The caches kept when a new service worker activates. */
  const CachesToKeepBetweenVersions: seq<string> :=
    ["ui-images", "font-files", "google-fonts-stylesheets", "api-get-requests"]

  /** Workbox's precaches, which it diffs and updates itself. */
  const PrecachePrefix: string := "workbox-precache-"

  /** A cache that survives activation. */
  predicate IsKept(name: string) {
    name in CachesToKeepBetweenVersions || StartsWith(name, PrecachePrefix)
  }

  /** `a` can be obtained from `b` by dropping elements: their order is kept. */
  predicate IsSubsequence<T(==)>(a: seq<T>, b: seq<T>)
    decreases |b|
  {
    if a == [] then true
    else if b == [] then false
    else if a[0] == b[0] then IsSubsequence(a[1..], b[1..])
    else IsSubsequence(a, b[1..])
  }

  /**
   * The names the handler deletes, in the order `caches.keys()` listed them:
   * every existing name that is not kept, as often as it occurs, and nothing
   * else.
   */
  function Deleted(names: seq<string>): (r: seq<string>)
    ensures IsSubsequence(r, names)
    ensures forall x :: x in r <==> x in names && !IsKept(x)
    ensures forall x :: multiset(r)[x] == if IsKept(x) then 0 else multiset(names)[x]
  {
    if names == [] then []
    else
      assert names == [names[0]] + names[1..];
      if IsKept(names[0]) then Deleted(names[1..]) else [names[0]] + Deleted(names[1..])
  }

  /** The names that survive, in their listed order. */
  function Retained(names: seq<string>): (r: seq<string>)
    ensures IsSubsequence(r, names)
    ensures forall x :: x in r <==> x in names && IsKept(x)
    ensures forall x :: multiset(r)[x] == if IsKept(x) then multiset(names)[x] else 0
  {
    if names == [] then []
    else
      assert names == [names[0]] + names[1..];
      if IsKept(names[0]) then [names[0]] + Retained(names[1..]) else Retained(names[1..])
  }

  /** Cleanup splits the existing caches: each one is either deleted or retained, never both, never lost. */
  lemma CleanupPartitions(names: seq<string>)
    ensures multiset(Deleted(names)) + multiset(Retained(names)) == multiset(names)
    ensures |Deleted(names)| + |Retained(names)| == |names|
  {
    var d, k := multiset(Deleted(names)), multiset(Retained(names));
    assert forall x :: (d + k)[x] == multiset(names)[x];
    assert d + k == multiset(names);
    assert |multiset(Deleted(names))| == |Deleted(names)|;
    assert |multiset(Retained(names))| == |Retained(names)|;
  }

  /** One `caches.delete` call per deleted name, in order (the `.map` of the handler). */
  function DeleteCalls(names: seq<string>): seq<Effect> {
    if names == [] then [] else [DeleteCache(names[0])] + DeleteCalls(names[1..])
  }

  /**
   * One run of the `activate` handler.  It is created with the names that
   * `caches.keys()` produced, issues the deletions at once, and learns of
   * each deletion's settlement through `OnDeleteSettled`.  `Promise.all`
   * resolves only when every deletion has resolved, and rejects when one of
   * them rejects; only on resolution is `clients.claim()` called.
   */
  class Activation {
    const existing: seq<string>
    /** The deletions issued, in order. */
    const requested: seq<string>
    /** The indices of `requested` whose promise has settled. */
    var settled: set<nat>
    /** Some deletion rejected, so `Promise.all` rejected. */
    var rejected: bool
    var claimed: bool
    /** The host calls made so far, in order. */
    var issued: seq<Effect>

    ghost predicate AllSettled()
      reads this
    {
      forall i :: 0 <= i < |requested| ==> i in settled
    }

    /** The deletions issued are those the cleanup filter picks; both fields are constant. */
    ghost predicate Planned() {
      requested == Deleted(existing)
    }

    ghost predicate Valid()
      reads this
    {
      && (forall i :: i in settled ==> i < |requested|)
      && issued == DeleteCalls(requested) + (if claimed then [ClaimClients] else [])
      && (claimed <==> AllSettled() && !rejected)
    }

    constructor (existing: seq<string>)
      ensures Valid() && Planned()
      ensures this.existing == existing && settled == {} && !rejected
      ensures claimed <==> Deleted(existing) == []
    {
      var toDelete := Deleted(existing);
      this.existing := existing;
      requested := toDelete;
      settled := {};
      rejected := false;
      // Promise.all([]) resolves straight away.
      claimed := toDelete == [];
      issued := DeleteCalls(toDelete) + (if toDelete == [] then [ClaimClients] else []);
      new;
      assert toDelete != [] ==> 0 !in settled;
    }

    /** The host settles deletion `i`: resolved when `ok`, rejected otherwise. */
    method OnDeleteSettled(i: nat, ok: bool)
      requires Valid()
      requires i < |requested| && i !in settled
      modifies this
      ensures Valid()
      ensures settled == old(settled) + {i}
      ensures rejected == (old(rejected) || !ok)
      ensures claimed <==> AllSettled() && !rejected
      ensures !old(claimed)
    {
      assert !AllSettled() && !claimed by {
        assert !(i in settled);
      }
      assert issued == DeleteCalls(requested);
      settled := settled + {i};
      rejected := rejected || !ok;
      var all := forall j :: 0 <= j < |requested| ==> j in settled;
      if all && !rejected {
        claimed := true;
        issued := issued + [ClaimClients];
      }
    }
  }

  /**
   * Whenever the clients have been claimed, the claim is the last call made,
   * it comes after a deletion call for every deleted name, and every one of
   * those deletions has resolved.
   */
  lemma ClaimFollowsDeletes(a: Activation)
    requires a.Planned() && a.Valid() && a.claimed
    ensures a.issued[..|a.issued| - 1] == DeleteCalls(Deleted(a.existing))
    ensures a.issued[|a.issued| - 1] == ClaimClients
    ensures a.AllSettled() && !a.rejected
  {
    assert a.issued[..|a.issued| - 1] == DeleteCalls(a.requested);
  }
}
