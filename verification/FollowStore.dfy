/** The follow-graph tables of the bridge and their transitions
    (crates/fetchit-bridge-server/src/store_follow.rs). */
module FollowStore {
  import opened Basics

  const MAX_QUEUED: nat := 200
  const I64_MAX: nat := 0x7fff_ffff_ffff_ffff

  /** `i64::try_from(now_ms).unwrap_or(i64::MAX)`. */
  function Clamp(ms: nat): nat { if ms <= I64_MAX then ms else I64_MAX }

  datatype State = Pending | Accepted

  /** A row of `following`; the key is (actor, target). */
  datatype Following = Following(inbox: string, state: State, followId: string, createdMs: nat)

  /** A row of `follow_requests`; the key is (actor, follower). */
  datatype Request = Request(inbox: string, followId: string, receivedMs: nat)

  type Key = (string, string)
  type FollowingTable = map<Key, Following>
  type RequestTable = map<Key, Request>
  type FollowerTable = map<Key, string>

  // ----------------------------------------------------------------- following

  datatype Outcome = Created | AlreadyPending | AlreadyAccepted | ConstraintError

  ghost predicate IdTaken(f: FollowingTable, followId: string) {
    exists k :: k in f && f[k].followId == followId
  }

  /** `follow_request`: insert a pending row unless the pair has one already or
      the unique index on the activity id refuses it. */
  ghost function Requested(f: FollowingTable, key: Key, inbox: string, followId: string, now: nat): FollowingTable {
    if key in f || IdTaken(f, followId) then f else f[key := Following(inbox, Pending, followId, Clamp(now))]
  }

  /** `follow_accepted`: the id, the sender and the recipient must all match a
      pending row. */
  function AcceptedBy(f: FollowingTable, followId: string, target: string, actor: string): FollowingTable {
    var key := (actor, target);
    if key in f && f[key].followId == followId && f[key].state == Pending then f[key := f[key].(state := Accepted)] else f
  }

  /** `follow_rejected`: the id and the sender must match. */
  function RejectedBy(f: FollowingTable, followId: string, target: string): FollowingTable {
    map k | k in f && !(k.1 == target && f[k].followId == followId) :: f[k]
  }

  /** `unfollow`. */
  function Unfollowed(f: FollowingTable, key: Key): FollowingTable { f - {key} }

  /** The UNIQUE index: no two rows share an activity id. */
  ghost predicate UniqueIds(f: FollowingTable) {
    forall j, k :: j in f && k in f && f[j].followId == f[k].followId ==> j == k
  }

  // ------------------------------------------------------------ request queue

  /** Followers queued for `actor`. */
  function Queue(q: RequestTable, actor: string): set<string> {
    set k | k in q && k.0 == actor :: k.1
  }

  /** `order` is the answer of `SELECT ... ORDER BY received_ms DESC`: each queued
      follower once, newest first, ties in any order. */
  ghost predicate Ranked(q: RequestTable, actor: string, order: seq<string>) {
    && (forall x :: x in order <==> (actor, x) in q)
    && (forall i, j :: 0 <= i < j < |order| ==> order[i] != order[j])
    && (forall i, j :: 0 <= i < j < |order| && (actor, order[i]) in q && (actor, order[j]) in q ==>
                       q[(actor, order[i])].receivedMs >= q[(actor, order[j])].receivedMs)
  }

  function Top(order: seq<string>): seq<string> { if |order| <= MAX_QUEUED then order else order[..MAX_QUEUED] }

  function Upserted(q: RequestTable, key: Key, inbox: string, followId: string, now: nat): RequestTable {
    q[key := Request(inbox, followId, Clamp(now))]
  }

  /** Delete the actor's rows outside the newest MAX_QUEUED. */
  function Trimmed(q: RequestTable, actor: string, order: seq<string>): RequestTable {
    map k | k in q && (k.0 == actor ==> k.1 in Top(order)) :: q[k]
  }

  /** `add_follow_request`. */
  function Queued(q: RequestTable, key: Key, inbox: string, followId: string, now: nat, order: seq<string>): RequestTable {
    Trimmed(Upserted(q, key, inbox, followId, now), key.0, order)
  }

  /** `remove_follow_request`: with an id, only a row carrying exactly it. */
  function Dequeued(q: RequestTable, key: Key, followId: Option<string>): RequestTable {
    if key in q && (followId.None? || q[key].followId == followId.value) then q - {key} else q
  }

  // ----------------------------------------------------------------- followers

  /** `add_follower`: a row already there stays as it is. */
  function Recorded(f: FollowerTable, key: Key, inbox: string): FollowerTable {
    if key in f then f else f[key := inbox]
  }

  /** `remove_follower`. */
  function Forgotten(f: FollowerTable, key: Key): FollowerTable { f - {key} }

  // ---------------------------------------------------------------- the object

  class Store {
    var following: FollowingTable
    var followers: FollowerTable
    var requests: RequestTable

    constructor ()
      ensures following == map[] && followers == map[] && requests == map[]
    {
      following, followers, requests := map[], map[], map[];
    }

    method FollowRequest(actor: string, target: string, inbox: string, followId: string, now: nat) returns (o: Outcome)
      modifies this`following
      ensures following == Requested(old(following), (actor, target), inbox, followId, now)
      ensures o == if (actor, target) in old(following)
                   then (if old(following)[(actor, target)].state == Accepted then AlreadyAccepted else AlreadyPending)
                   else if IdTaken(old(following), followId) then ConstraintError else Created
    {
      var key := (actor, target);
      if key in following {
        return if following[key].state == Accepted then AlreadyAccepted else AlreadyPending;
      }
      var taken := HasId(followId);
      if taken {
        return ConstraintError;
      }
      following := following[key := Following(inbox, Pending, followId, Clamp(now))];
      return Created;
    }

    /** The look-up in the unique index. */
    method HasId(followId: string) returns (taken: bool)
      ensures taken <==> IdTaken(following, followId)
    {
      taken := false;
      var left := following.Keys;
      while left != {}
        invariant left <= following.Keys
        invariant !taken
        invariant forall k :: k in following && k !in left ==> following[k].followId != followId
        decreases left
      {
        var k :| k in left;
        if following[k].followId == followId {
          return true;
        }
        left := left - {k};
      }
    }

    method FollowAccepted(followId: string, target: string, actor: string) returns (flipped: bool)
      modifies this`following
      ensures following == AcceptedBy(old(following), followId, target, actor)
      ensures flipped <==> following != old(following)
    {
      var key := (actor, target);
      flipped := key in following && following[key].followId == followId && following[key].state == Pending;
      if flipped {
        assert following[key := following[key].(state := Accepted)][key] != following[key];
        following := following[key := following[key].(state := Accepted)];
      }
    }

    method FollowRejected(followId: string, target: string) returns (dropped: bool)
      modifies this`following
      ensures following == RejectedBy(old(following), followId, target)
      ensures dropped <==> following != old(following)
    {
      var rest := map k | k in following && !(k.1 == target && following[k].followId == followId) :: following[k];
      dropped := rest != following;
      following := rest;
    }

    method Unfollow(actor: string, target: string) returns (row: Option<Following>)
      modifies this`following
      ensures following == Unfollowed(old(following), (actor, target))
      ensures row == if (actor, target) in old(following) then Some(old(following)[(actor, target)]) else None
    {
      var key := (actor, target);
      if key !in following {
        assert following - {key} == following;
        return None;
      }
      row := Some(following[key]);
      following := following - {key};
    }

    method AddFollower(actor: string, follower: string, inbox: string) returns (created: bool)
      modifies this`followers
      ensures followers == Recorded(old(followers), (actor, follower), inbox)
      ensures created <==> followers != old(followers)
    {
      created := (actor, follower) !in followers;
      if created {
        assert (actor, follower) in followers[(actor, follower) := inbox];
        followers := followers[(actor, follower) := inbox];
      }
    }

    method RemoveFollower(actor: string, follower: string) returns (removed: bool)
      modifies this`followers
      ensures followers == Forgotten(old(followers), (actor, follower))
      ensures removed <==> followers != old(followers)
    {
      removed := (actor, follower) in followers;
      assert (actor, follower) !in followers - {(actor, follower)};
      assert !removed ==> followers - {(actor, follower)} == followers;
      followers := followers - {(actor, follower)};
    }

    method AddFollowRequest(actor: string, follower: string, inbox: string, followId: string, now: nat, order: seq<string>)
      requires Ranked(Upserted(requests, (actor, follower), inbox, followId, now), actor, order)
      modifies this`requests
      ensures requests == Queued(old(requests), (actor, follower), inbox, followId, now, order)
    {
      requests := requests[(actor, follower) := Request(inbox, followId, Clamp(now))];
      requests := map k | k in requests && (k.0 == actor ==> k.1 in Top(order)) :: requests[k];
    }

    method RemoveFollowRequest(actor: string, follower: string, followId: Option<string>) returns (removed: bool)
      modifies this`requests
      ensures requests == Dequeued(old(requests), (actor, follower), followId)
      ensures removed <==> requests != old(requests)
    {
      var key := (actor, follower);
      removed := key in requests && (followId.None? || requests[key].followId == followId.value);
      if removed {
        assert key !in requests - {key};
        requests := requests - {key};
      }
    }
  }
}
