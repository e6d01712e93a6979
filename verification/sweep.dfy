/** The retention rule of `cleanup_files` in app.py, as functions on the
    registry table, and what one sweep does to it. */
module Sweep {
  import opened Registry

  /** `FILE_RETENTION_MINUTES`. */
  const FileRetentionMinutes: int := 60

  /** `retention_seconds` in `cleanup_files`. */
  const RetentionSeconds: int := FileRetentionMinutes * 60

  /** The expiry test: strictly more than the retention period has passed,
      that is the record was registered more than an hour before `now`. */
  predicate IsExpired(r: Record, now: int)
    ensures IsExpired(r, now) <==> r.created < now - 3600
  {
    now - r.created > RetentionSeconds
  }

  /** The expired records of `t`, in table order (`files_to_remove`). */
  function Expired(t: seq<Record>, now: int): (r: seq<Record>)
    ensures |r| <= |t|
    ensures forall i :: 0 <= i < |r| ==> IsExpired(r[i], now)
  {
    if t == [] then []
    else Expired(t[..|t| - 1], now) + (if IsExpired(t[|t| - 1], now) then [t[|t| - 1]] else [])
  }

  /** The records of `t` a sweep at `now` keeps, in table order; none of
      them has expired. */
  function Kept(t: seq<Record>, now: int): (r: seq<Record>)
    ensures |r| <= |t|
    ensures forall i :: 0 <= i < |r| ==> !IsExpired(r[i], now)
  {
    if t == [] then []
    else Kept(t[..|t| - 1], now) + (if IsExpired(t[|t| - 1], now) then [] else [t[|t| - 1]])
  }

  /** A record exactly one retention period old is kept; one a second older expires. */
  lemma RetentionBoundary(path: string, session: string, now: int)
    ensures !IsExpired(Record(path, now - 3600, session), now)
    ensures IsExpired(Record(path, now - 3601, session), now)
  {
  }

  /** Exactly the expired records of the table are marked for removal. */
  lemma {:induction false} ExpiredMembers(t: seq<Record>, now: int)
    ensures forall r :: r in Expired(t, now) <==> r in t && IsExpired(r, now)
  {
    if t != [] {
      ExpiredMembers(t[..|t| - 1], now);
      assert t == t[..|t| - 1] + [t[|t| - 1]];
    }
  }

  /** Exactly the unexpired records of the table are kept. */
  lemma {:induction false} KeptMembers(t: seq<Record>, now: int)
    ensures forall r :: r in Kept(t, now) <==> r in t && !IsExpired(r, now)
  {
    if t != [] {
      KeptMembers(t[..|t| - 1], now);
      assert t == t[..|t| - 1] + [t[|t| - 1]];
    }
  }

  /** Kept and expired records together are the table, counting duplicates. */
  lemma {:induction false} SweepPartition(t: seq<Record>, now: int)
    ensures multiset(Kept(t, now)) + multiset(Expired(t, now)) == multiset(t)
  {
    if t != [] {
      var init, last := t[..|t| - 1], t[|t| - 1];
      SweepPartition(init, now);
      assert t == init + [last];
      assert multiset(t) == multiset(init) + multiset{last};
    }
  }

  /** No record is both kept and expired. */
  lemma SweepDisjoint(t: seq<Record>, now: int)
    ensures forall r :: !(r in Kept(t, now) && r in Expired(t, now))
  {
    KeptMembers(t, now);
    ExpiredMembers(t, now);
  }

  /** Sweeping keeps the relative order: a table split in two sweeps as its
      two halves do, one after the other. */
  lemma {:induction false} KeptAppend(a: seq<Record>, b: seq<Record>, now: int)
    ensures Kept(a + b, now) == Kept(a, now) + Kept(b, now)
  {
    if b == [] {
      assert a + b == a;
    } else {
      KeptAppend(a, b[..|b| - 1], now);
      assert (a + b)[..|a + b| - 1] == a + b[..|b| - 1];
    }
  }

  /** The source filters by "not among the marked records"; when the marked
      records are exactly the table's expired ones, that filter is `Kept`. */
  lemma {:induction false} WithoutExpiredIsKept(t: seq<Record>, marked: seq<Record>, now: int)
    requires forall r :: r in t ==> (r in marked <==> IsExpired(r, now))
    ensures Without(t, marked) == Kept(t, now)
  {
    if t != [] {
      assert t == t[..|t| - 1] + [t[|t| - 1]];
      WithoutExpiredIsKept(t[..|t| - 1], marked, now);
    }
  }

  /** The source's filter by its own marks: dropping from the table every
      record the scan marked leaves exactly the records a sweep keeps. */
  lemma WithoutExpired(t: seq<Record>, now: int)
    ensures Without(t, Expired(t, now)) == Kept(t, now)
  {
    ExpiredMembers(t, now);
    WithoutExpiredIsKept(t, Expired(t, now), now);
  }

  /** After a sweep at `now` nothing left is expired, so a second sweep at the
      same time removes nothing and keeps the table as it is. */
  lemma {:induction false} SweepIdempotent(t: seq<Record>, now: int)
    ensures Expired(Kept(t, now), now) == []
    ensures Kept(Kept(t, now), now) == Kept(t, now)
  {
    if t != [] {
      var init, last := t[..|t| - 1], t[|t| - 1];
      SweepIdempotent(init, now);
      var k := Kept(t, now);
      if !IsExpired(last, now) {
        assert k == Kept(init, now) + [last];
        assert k[..|k| - 1] == Kept(init, now) && k[|k| - 1] == last;
        assert Expired(k, now) == Expired(Kept(init, now), now);
        assert Kept(k, now) == Kept(Kept(init, now), now) + [last];
      } else {
        assert k == Kept(init, now);
      }
    }
  }
}
